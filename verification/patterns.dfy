/** The four regular expressions of lib/markupfilter.rb, each written out as
    a deterministic matcher that is tried at a position of a string, and
    `String#scan`, which applies one of them left to right (`gsub!` with a
    block is in Rewriting).

    An expression may succeed in several ways at one start position: the
    tag name of `<h2 id="x">` may end after `h`, the whitespace before `id=`
    may be any of several, `(?:\s*<p>)?` may be taken or skipped, `.*?` may
    stop at any later `<figcaption>`. The engine reports the first success in
    its order of preference (a greedy repetition longest first, a lazy one
    shortest first, an optional group taken before skipped), and each
    matcher below computes that first success directly: a greedy `\w+`,
    `\s*` or `[^"]+` ends at the end of its run, `[^>]*` before `\s+id="`
    ends at the LAST whitespace position, before the first `>`, from which
    the rest of the expression matches, and `.*?<figcaption>` stops at the
    first `<figcaption>`. */
module Patterns {
  import opened Text

  datatype Pattern =
    | OpeningTag     // create_labels: `<`, tag name, attribute list holding `id="..."`, `>`
    | Attribute      // parse_attributes: name `=` double-quoted non-empty value
    | FigureCaption  // add_labels_to_figures: `<figure`, `id="..."`, up to `<figcaption>` and an optional `<p>`
    | EmptyLink      // set_reference_labels: `<a href="#id">` directly followed by `</a>`

  /** A successful match: the position just after it and the texts of its
      capture groups, in order. */
  datatype Hit = Hit(end: nat, groups: seq<string>)

  const LINK_OPEN: string := "<a href=\"#"
  const LINK_CLOSE: string := "</a>"
  const FIGURE_OPEN: string := "<figure"
  const CAPTION_OPEN: string := "<figcaption>"
  const PARA_OPEN: string := "<p>"

  predicate NoQuote(s: string) {
    '"' !in s
  }

  /** What the capture groups of each pattern hold. */
  predicate Captures(p: Pattern, g: seq<string>) {
    match p
    case OpeningTag =>
      |g| == 3 && g[0] != [] && AllIn(Word, g[0]) && g[2] != [] && NoQuote(g[2])
    case Attribute =>
      |g| == 2 && g[0] != [] && AllIn(Word, g[0]) && g[1] != [] && NoQuote(g[1])
    case FigureCaption =>
      |g| == 1 && g[0] != [] && NoQuote(g[0])
    case EmptyLink =>
      |g| == 3 && g[1] != [] && NoQuote(g[1])
      && g[0] == LINK_OPEN + g[1] + "\">" && g[2] == LINK_CLOSE
  }

  /** `id="id"` after whitespace that starts at `q`. */
  predicate IdFrom(t: string, q: nat, id: string) {
    q < |t| && IsSpace(t[q]) && StartsAt(t, Span(t, q, Space), "id=\"" + id + "\"")
  }

  /** The position just after the closing `"` of that attribute. */
  function IdEnd(t: string, q: nat, id: string): nat
    requires q <= |t|
  {
    Span(t, q, Space) + |id| + 5
  }

  /** Whitespace at `q`, then after the whitespace run `id="`, a non-empty
      value without `"`, and the closing `"`: the start of the value and the
      position of its closing quote. */
  function IdAt(t: string, q: nat): (r: Option<(nat, nat)>)
    requires q <= |t|
    ensures r.Some? ==> q < r.value.0 < r.value.1 < |t| && t[r.value.1] == '"'
    ensures r.Some? ==> NoQuote(t[r.value.0..r.value.1])
    ensures r.Some? ==> r.value.0 == Span(t, q, Space) + 4 && IdFrom(t, q, t[r.value.0..r.value.1])
  {
    if q == |t| || !IsSpace(t[q]) then None
    else
      var s := Span(t, q, Space);
      if !StartsAt(t, s, "id=\"") then None
      else
        var c := FindChar(t, s + 4, '"');
        if c == |t| || c == s + 4 then None
        else
          StartsAtConcat(t, s, "id=\"", t[s + 4..c]);
          assert StartsAt(t, c, "\"") by { assert t[c..c + 1] == [t[c]]; }
          StartsAtConcat(t, s, "id=\"" + t[s + 4..c], "\"");
          Some((s + 4, c))
  }

  // ---------------------------------------------------------------- OpeningTag

  /** A match of the opening-tag pattern from `i` to `e` with the groups `g`
      and the whitespace before `id=` at `q`: `<`, the tag name (a run of
      word characters that ends there), the attribute list up to the `>`
      that ends the match, no `>` before `q`, `id="g[2]"` and no `>` between
      the closing `"` and the end. */
  predicate TagShape(t: string, i: nat, e: nat, q: nat, g: seq<string>) {
    |g| == 3 && i < |t| && t[i] == '<' && i + 1 + |g[0]| <= q < e <= |t|
    && t[i + 1..i + 1 + |g[0]|] == g[0] && !IsWordChar(t[i + 1 + |g[0]|])
    && t[i + 1 + |g[0]|..e - 1] == g[1] && t[e - 1] == '>'
    && (forall k :: i + 1 + |g[0]| <= k < q ==> t[k] != '>')
    && IdFrom(t, q, g[2]) && IdEnd(t, q, g[2]) < e
    && (forall k :: IdEnd(t, q, g[2]) <= k < e - 1 ==> t[k] != '>')
  }

  /** The opening-tag pattern of create_labels tried at position `i`. */
  function TagAt(t: string, i: nat): (r: Option<Hit>)
    requires i <= |t|
    ensures r.Some? ==> i < r.value.end <= |t| && Captures(OpeningTag, r.value.groups)
    ensures r.Some? ==> exists q :: TagShape(t, i, r.value.end, q, r.value.groups)
  {
    if i == |t| || t[i] != '<' then None
    else
      var w := Span(t, i + 1, Word);
      if w == i + 1 then None else TagFrom(t, i, w, FindChar(t, w, '>'))
  }

  /** Tries the whitespace before `id=` at `q`, then at `q - 1`, … down to
      the end `w` of the tag name. */
  function TagFrom(t: string, i: nat, w: nat, q: nat): (r: Option<Hit>)
    requires i < |t| && t[i] == '<' && i + 1 < w <= q <= |t| && AllIn(Word, t[i + 1..w])
    requires w == |t| || !IsWordChar(t[w])
    requires forall k :: w <= k < q ==> t[k] != '>'
    ensures r.Some? ==> i < r.value.end <= |t| && Captures(OpeningTag, r.value.groups)
    ensures r.Some? ==> exists q' :: TagShape(t, i, r.value.end, q', r.value.groups)
    decreases q
  {
    match TagIdAt(t, i, w, q)
    case Some(hit) => Some(hit)
    case None => if q == w then None else TagFrom(t, i, w, q - 1)
  }

  function TagIdAt(t: string, i: nat, w: nat, q: nat): (r: Option<Hit>)
    requires i < |t| && t[i] == '<' && i + 1 < w <= q <= |t| && AllIn(Word, t[i + 1..w])
    requires w == |t| || !IsWordChar(t[w])
    requires forall k :: w <= k < q ==> t[k] != '>'
    ensures r.Some? ==> i < r.value.end <= |t| && Captures(OpeningTag, r.value.groups)
    ensures r.Some? ==> TagShape(t, i, r.value.end, q, r.value.groups)
  {
    match IdAt(t, q)
    case None => None
    case Some((v, c)) => TagClose(t, i, w, q, v, c)
  }

  /** The rest of the opening-tag pattern after the id value `t[v..c]`:
      `"`, then up to the first `>`. */
  function TagClose(t: string, i: nat, w: nat, q: nat, v: nat, c: nat): (r: Option<Hit>)
    requires i < |t| && t[i] == '<' && i + 1 < w <= q < v < c < |t| && AllIn(Word, t[i + 1..w])
    requires w == |t| || !IsWordChar(t[w])
    requires forall k :: w <= k < q ==> t[k] != '>'
    requires v == Span(t, q, Space) + 4 && IdFrom(t, q, t[v..c]) && NoQuote(t[v..c])
    ensures r.Some? ==> i < r.value.end <= |t| && Captures(OpeningTag, r.value.groups)
    ensures r.Some? ==> TagShape(t, i, r.value.end, q, r.value.groups)
  {
    var gt := FindChar(t, c + 1, '>');
    if gt == |t| then None
    else
      TagShapeIs(t, i, w, q, v, c, gt);
      Some(Hit(gt + 1, [t[i + 1..w], t[w..gt], t[v..c]]))
  }

  lemma TagShapeIs(t: string, i: nat, w: nat, q: nat, v: nat, c: nat, gt: nat)
    requires i < |t| && t[i] == '<' && i + 1 < w <= q < v < c < gt < |t| && AllIn(Word, t[i + 1..w])
    requires !IsWordChar(t[w]) && forall k :: w <= k < q ==> t[k] != '>'
    requires v == Span(t, q, Space) + 4 && IdFrom(t, q, t[v..c])
    requires t[gt] == '>' && forall k :: c + 1 <= k < gt ==> t[k] != '>'
    ensures TagShape(t, i, gt + 1, q, [t[i + 1..w], t[w..gt], t[v..c]])
  {
    var g := [t[i + 1..w], t[w..gt], t[v..c]];
    assert |g[0]| == w - i - 1 && |g[2]| == c - v;
    assert IdEnd(t, q, g[2]) == c + 1;
  }

  // ----------------------------------------------------------------- Attribute

  /** The attribute pattern of parse_attributes tried at position `i`; the
      whitespace runs before and after the pair belong to the match. */
  function AttributeAt(t: string, i: nat): (r: Option<Hit>)
    requires i <= |t|
    ensures r.Some? ==> i < r.value.end <= |t| && Captures(Attribute, r.value.groups)
  {
    var n := Span(t, i, Space);
    var j := Span(t, n, Word);
    if j == n then None
    else
      var k := Span(t, j, Space);
      if k == |t| || t[k] != '=' then None
      else
        var l := Span(t, k + 1, Space);
        if l == |t| || t[l] != '"' then None
        else
          var c := FindChar(t, l + 1, '"');
          if c == |t| || c == l + 1 then None
          else Some(Hit(Span(t, c + 1, Space), [t[n..j], t[l + 1..c]]))
  }

  // ------------------------------------------------------------- FigureCaption

  /** The end `e` of `(?:\s*<p>)?` after the `<figcaption>` at `f`: just
      after `<figcaption>` when no whitespace-and-`<p>` follows it, otherwise
      after the whitespace and the `<p>`. */
  predicate CaptionEnd(t: string, f: nat, e: nat) {
    var a := f + |CAPTION_OPEN|;
    a <= e <= |t| && StartsAt(t, f, CAPTION_OPEN)
    && (|| (e == a && !StartsAt(t, Span(t, a, Space), PARA_OPEN))
        || (a + |PARA_OPEN| <= e && (forall k :: a <= k < e - |PARA_OPEN| ==> IsSpace(t[k]))
            && StartsAt(t, e - |PARA_OPEN|, PARA_OPEN)))
  }

  /** After position `c`, the first `<figcaption>` is at `f` and the match
      ends at `e`. */
  predicate FirstCaption(t: string, c: nat, f: nat, e: nat) {
    c < f && (forall k :: c < k < f ==> !StartsAt(t, k, CAPTION_OPEN)) && CaptionEnd(t, f, e)
  }

  /** From the `id="id"` at `q`: the first `<figcaption>` after the attribute
      is at `f`, and the match ends at `e`. */
  predicate IdCaption(t: string, q: nat, f: nat, e: nat, id: string) {
    q <= |t| && IdFrom(t, q, id) && FirstCaption(t, IdEnd(t, q, id) - 1, f, e)
  }

  /** A match of the figure pattern from `i` to `e` capturing `id`: `<figure`,
      no `>` up to the whitespace at `q` before `id="id"`, then up to the
      first `<figcaption>` at `f` and the optional `<p>`. */
  predicate FigureShape(t: string, i: nat, e: nat, q: nat, f: nat, id: string) {
    StartsAt(t, i, FIGURE_OPEN) && i + |FIGURE_OPEN| <= q < |t|
    && (forall k :: i + |FIGURE_OPEN| <= k < q ==> t[k] != '>')
    && IdCaption(t, q, f, e, id)
  }

  /** The figure pattern of add_labels_to_figures tried at position `i` (its
      `.` also matches line breaks). */
  function FigureAt(t: string, i: nat): (r: Option<Hit>)
    requires i <= |t|
    ensures r.Some? ==> i < r.value.end <= |t| && Captures(FigureCaption, r.value.groups)
    ensures r.Some? ==> exists q, f :: FigureShape(t, i, r.value.end, q, f, r.value.groups[0])
  {
    if !StartsAt(t, i, FIGURE_OPEN) then None
    else FigureFrom(t, i, FindChar(t, i + |FIGURE_OPEN|, '>'))
  }

  function FigureFrom(t: string, i: nat, q: nat): (r: Option<Hit>)
    requires StartsAt(t, i, FIGURE_OPEN) && i + |FIGURE_OPEN| <= q <= |t|
    requires forall k :: i + |FIGURE_OPEN| <= k < q ==> t[k] != '>'
    ensures r.Some? ==> i < r.value.end <= |t| && Captures(FigureCaption, r.value.groups)
    ensures r.Some? ==> exists q', f :: FigureShape(t, i, r.value.end, q', f, r.value.groups[0])
    decreases q
  {
    match FigureIdAt(t, q)
    case Some(hit) =>
      assert (var f :| IdCaption(t, q, f, hit.end, hit.groups[0]); FigureShape(t, i, hit.end, q, f, hit.groups[0]));
      Some(hit)
    case None => if q == i + |FIGURE_OPEN| then None else FigureFrom(t, i, q - 1)
  }

  /** From the `id` attribute found at `q`: the rest of the pattern after
      the closing `"`. */
  function FigureIdAt(t: string, q: nat): (r: Option<Hit>)
    requires q <= |t|
    ensures r.Some? ==> q < r.value.end <= |t| && Captures(FigureCaption, r.value.groups)
    ensures r.Some? ==> exists f :: IdCaption(t, q, f, r.value.end, r.value.groups[0])
  {
    match IdAt(t, q)
    case None => None
    case Some((v, c)) =>
      match CaptionAfter(t, c)
      case None => None
      case Some(e) =>
        assert (var f :| FirstCaption(t, c, f, e); IdCaptionIs(t, q, v, c, f, e); IdCaption(t, q, f, e, t[v..c]));
        Some(Hit(e, [t[v..c]]))
  }

  lemma IdCaptionIs(t: string, q: nat, v: nat, c: nat, f: nat, e: nat)
    requires q <= |t| && IdAt(t, q) == Some((v, c)) && FirstCaption(t, c, f, e)
    ensures IdCaption(t, q, f, e, t[v..c])
  {
    assert IdEnd(t, q, t[v..c]) == c + 1;
  }

  /** `.*?<figcaption>(?:\s*<p>)?` after the closing quote at `c`: the first
      `<figcaption>`, then `<p>` if only whitespace separates the two. */
  function CaptionAfter(t: string, c: nat): (r: Option<nat>)
    requires c < |t|
    ensures r.Some? ==> c < r.value <= |t| && exists f :: FirstCaption(t, c, f, r.value)
  {
    match FindLit(t, c + 1, CAPTION_OPEN)
    case None => None
    case Some(f) =>
      var e := f + |CAPTION_OPEN|;
      var s := Span(t, e, Space);
      if StartsAt(t, s, PARA_OPEN) then
        assert FirstCaption(t, c, f, s + |PARA_OPEN|);
        Some(s + |PARA_OPEN|)
      else
        assert FirstCaption(t, c, f, e);
        Some(e)
  }

  // ----------------------------------------------------------------- EmptyLink

  /** The empty-link pattern of set_reference_labels tried at position `i`. */
  function LinkAt(t: string, i: nat): (r: Option<Hit>)
    requires i <= |t|
    ensures r.Some? ==> i < r.value.end <= |t| && Captures(EmptyLink, r.value.groups)
    ensures r.Some? ==> r.value.groups[0] + r.value.groups[2] == t[i..r.value.end]
  {
    if !StartsAt(t, i, LINK_OPEN) then None
    else
      var c := FindChar(t, i + |LINK_OPEN|, '"');
      if c == i + |LINK_OPEN| || !StartsAt(t, c, "\"></a>") then None
      else
        assert t[i..c + 2] == t[i..i + |LINK_OPEN|] + t[i + |LINK_OPEN|..c] + t[c..c + 2];
        assert t[c..c + 2] == "\">" && t[c + 2..c + 6] == LINK_CLOSE by {
          assert t[c..c + 2] == t[c..c + 6][..2] && t[c + 2..c + 6] == t[c..c + 6][2..];
        }
        Some(Hit(c + 6, [t[i..c + 2], t[i + |LINK_OPEN|..c], t[c + 2..c + 6]]))
  }

  // ------------------------------------------------------------ written texts

  /** An id as authors write it: non-empty, no `"`, no `>`, no whitespace. */
  predicate PlainId(id: string) {
    id != [] && forall k :: 0 <= k < |id| ==> id[k] != '"' && id[k] != '>' && !IsSpace(id[k])
  }

  /** The characters of ` id="id">` written at `q`, with the closing quote
      at `c`: no `>` before the last one and no whitespace after the first. */
  lemma IdAttributeChars(t: string, q: nat, c: nat, id: string)
    requires PlainId(id) && c == q + 5 + |id|
    requires StartsAt(t, q, " id=\"") && StartsAt(t, q + 5, id) && StartsAt(t, c, "\">")
    ensures IsSpace(t[q]) && t[c] == '"' && t[c + 1] == '>'
    ensures forall k :: q <= k <= c ==> t[k] != '>'
    ensures forall k :: q < k <= c + 1 ==> !IsSpace(t[k])
    ensures forall k :: q + 5 <= k < c ==> t[k] != '"'
  {
    StartsAtChars(t, q, " id=\"");
    StartsAtChars(t, q + 5, id);
    StartsAtChars(t, c, "\">");
    forall k | q <= k <= c + 1
      ensures k <= c ==> t[k] != '>'
      ensures k > q ==> !IsSpace(t[k])
      ensures q + 5 <= k < c ==> t[k] != '"'
    {
      if q + 5 <= k < c {
        assert t[k] == id[k - q - 5];
      }
    }
  }

  /** ` id="id">` written at `q`: the id attribute is found there. */
  lemma IdAttributeWritten(t: string, q: nat, c: nat, id: string)
    requires PlainId(id) && c == q + 5 + |id|
    requires StartsAt(t, q, " id=\"") && StartsAt(t, q + 5, id) && StartsAt(t, c, "\">")
    ensures IdAt(t, q) == Some((q + 5, c)) && t[q + 5..c] == id && t[c + 1] == '>'
  {
    IdAttributeChars(t, q, c, id);
    FindCharIs(t, q + 5, c, '"');
    assert StartsAt(t, q + 1, "id=\"") by {
      assert " id=\"" == " " + "id=\"";
      StartsAtSplit(t, q, " ", "id=\"");
    }
    IdAtIs(t, q, c);
  }

  /** `IdAt` read off the searches it makes. */
  lemma IdAtIs(t: string, q: nat, c: nat)
    requires q + 1 < |t| && IsSpace(t[q]) && !IsSpace(t[q + 1]) && StartsAt(t, q + 1, "id=\"")
    requires FindChar(t, q + 5, '"') == c && q + 5 < c < |t|
    ensures IdAt(t, q) == Some((q + 5, c))
  {
    SpanIs(t, q, q + 1, Space);
  }

  /** The empty link `<a href="#id"></a>`. */
  function EmptyLinkText(id: string): string {
    LINK_OPEN + id + "\">" + LINK_CLOSE
  }

  lemma LinkAtIs(t: string, i: nat, c: nat)
    requires StartsAt(t, i, LINK_OPEN) && i + |LINK_OPEN| < c <= |t|
    requires FindChar(t, i + |LINK_OPEN|, '"') == c && StartsAt(t, c, "\"></a>")
    ensures LinkAt(t, i) == Some(Hit(c + 6, [t[i..c + 2], t[i + |LINK_OPEN|..c], t[c + 2..c + 6]]))
  {
  }

  lemma EmptyLinkParts(t: string, i: nat, id: string)
    requires id != [] && NoQuote(id) && StartsAt(t, i, EmptyLinkText(id))
    ensures var o, c := i + |LINK_OPEN|, i + |LINK_OPEN| + |id|;
      && StartsAt(t, i, LINK_OPEN) && FindChar(t, o, '"') == c && StartsAt(t, c, "\"></a>")
      && t[i..c + 2] == LINK_OPEN + id + "\">" && t[o..c] == id && t[c + 2..c + 6] == LINK_CLOSE
  {
    var o, c := i + |LINK_OPEN|, i + |LINK_OPEN| + |id|;
    StartsAtSplit(t, i, LINK_OPEN + id + "\">", LINK_CLOSE);
    StartsAtSplit(t, i, LINK_OPEN + id, "\">");
    StartsAtSplit(t, i, LINK_OPEN, id);
    StartsAtChars(t, o, id);
    StartsAtChars(t, c, "\">");
    forall k | o <= k < c ensures t[k] != '"' {
      assert t[k] == id[k - o];
    }
    FindCharIs(t, o, c, '"');
    StartsAtConcat(t, c, "\">", LINK_CLOSE);
    assert "\">" + LINK_CLOSE == "\"></a>";
  }

  /** The link pattern matches an empty link written at `i` as a whole,
      whatever follows it. */
  lemma EmptyLinkMatch(t: string, i: nat, id: string)
    requires id != [] && NoQuote(id) && StartsAt(t, i, EmptyLinkText(id))
    ensures LinkAt(t, i) == Some(Hit(i + |EmptyLinkText(id)|, [LINK_OPEN + id + "\">", id, LINK_CLOSE]))
  {
    EmptyLinkParts(t, i, id);
    LinkAtIs(t, i, i + |LINK_OPEN| + |id|);
  }

  /** A figure whose only attribute is its id, its caption and the caption's
      first paragraph, with the whitespace `gap` between the two. */
  function FigureText(id: string, gap: string): string {
    FIGURE_OPEN + " id=\"" + id + "\">" + CAPTION_OPEN + gap + PARA_OPEN
  }

  /** The parts of a written figure, at their positions: the whitespace
      before `id=` at `q` and the closing quote at `c`. */
  lemma FigureTextParts(t: string, i: nat, q: nat, c: nat, id: string, gap: string)
    requires StartsAt(t, i, FigureText(id, gap)) && q == i + |FIGURE_OPEN| && c == q + 5 + |id|
    ensures StartsAt(t, i, FIGURE_OPEN) && StartsAt(t, q, " id=\"") && StartsAt(t, q + 5, id)
    ensures StartsAt(t, c, "\">") && StartsAt(t, c + 2, CAPTION_OPEN) && StartsAt(t, c + 14, gap)
    ensures StartsAt(t, c + 14 + |gap|, PARA_OPEN)
  {
    StartsAtSplit(t, i, FIGURE_OPEN + " id=\"" + id + "\">" + CAPTION_OPEN + gap, PARA_OPEN);
    StartsAtSplit(t, i, FIGURE_OPEN + " id=\"" + id + "\">" + CAPTION_OPEN, gap);
    StartsAtSplit(t, i, FIGURE_OPEN + " id=\"" + id + "\">", CAPTION_OPEN);
    StartsAtSplit(t, i, FIGURE_OPEN + " id=\"" + id, "\">");
    StartsAtSplit(t, i, FIGURE_OPEN + " id=\"", id);
    StartsAtSplit(t, i, FIGURE_OPEN, " id=\"");
  }

  lemma FigureIdAtIs(t: string, q: nat, v: nat, c: nat, e: nat)
    requires q <= |t| && IdAt(t, q) == Some((v, c)) && CaptionAfter(t, c) == Some(e)
    ensures FigureIdAt(t, q) == Some(Hit(e, [t[v..c]]))
  {
  }

  /** `<figcaption>`, the whitespace `gap` and `<p>` right after the `">`
      that closes the id at `c`: the match ends at `e`. */
  lemma CaptionAfterIs(t: string, c: nat, s: nat, e: nat, gap: string)
    requires c + 1 < |t| && t[c + 1] == '>' && StartsAt(t, c + 2, CAPTION_OPEN)
    requires s == c + 14 + |gap| && e == s + 3
    requires StartsAt(t, c + 14, gap) && AllIn(Space, gap) && StartsAt(t, s, PARA_OPEN)
    ensures CaptionAfter(t, c) == Some(e)
  {
    FindLitPast(t, c + 1, CAPTION_OPEN, 0);
    assert FindLit(t, c + 1, CAPTION_OPEN) == Some(c + 2);
    StartsAtChars(t, c + 14, gap);
    StartsAtChars(t, s, PARA_OPEN);
    SpanIs(t, c + 14, s, Space);
  }

  lemma FigureIdAtNone(t: string, q: nat)
    requires q < |t| && !IsSpace(t[q])
    ensures FigureIdAt(t, q) == None
  {
  }


  /** Trying the whitespace before `id=` from `q` down to `q0`: positions
      where the rest of the pattern fails are passed over. */
  lemma FigureFromDown(t: string, i: nat, q: nat, q0: nat)
    requires StartsAt(t, i, FIGURE_OPEN) && i + |FIGURE_OPEN| <= q0 <= q <= |t|
    requires forall k :: i + |FIGURE_OPEN| <= k < q ==> t[k] != '>'
    requires forall k :: q0 < k <= q ==> FigureIdAt(t, k) == None
    ensures FigureFrom(t, i, q) == FigureFrom(t, i, q0)
  {
  }

  lemma FigureFromHit(t: string, i: nat, q: nat, hit: Hit)
    requires StartsAt(t, i, FIGURE_OPEN) && i + |FIGURE_OPEN| <= q <= |t|
    requires forall k :: i + |FIGURE_OPEN| <= k < q ==> t[k] != '>'
    requires FigureIdAt(t, q) == Some(hit)
    ensures FigureFrom(t, i, q) == Some(hit)
  {
  }

  /** The rest of the figure pattern succeeds from the whitespace before
      `id=` of a written figure. */
  lemma FigureIdWritten(t: string, q: nat, c: nat, e: nat, id: string, gap: string)
    requires PlainId(id) && AllIn(Space, gap) && c == q + 5 + |id| && e == c + 17 + |gap|
    requires StartsAt(t, q, " id=\"") && StartsAt(t, q + 5, id) && StartsAt(t, c, "\">")
    requires StartsAt(t, c + 2, CAPTION_OPEN) && StartsAt(t, c + 14, gap) && StartsAt(t, c + 14 + |gap|, PARA_OPEN)
    ensures FigureIdAt(t, q) == Some(Hit(e, [id]))
  {
    IdAttributeWritten(t, q, c, id);
    CaptionAfterIs(t, c, c + 14 + |gap|, e, gap);
    FigureIdAtIs(t, q, q + 5, c, e);
  }

  /** In a written figure the first `>` closes the opening tag, and the rest
      of the pattern fails from every position after the whitespace at `q`. */
  lemma FigureTagWritten(t: string, q: nat, c: nat, id: string)
    requires PlainId(id) && c == q + 5 + |id|
    requires StartsAt(t, q, " id=\"") && StartsAt(t, q + 5, id) && StartsAt(t, c, "\">")
    ensures FindChar(t, q, '>') == c + 1
    ensures forall k :: q < k <= c + 1 ==> FigureIdAt(t, k) == None
  {
    IdAttributeChars(t, q, c, id);
    FindCharIs(t, q, c + 1, '>');
    forall k | q < k <= c + 1 ensures FigureIdAt(t, k) == None {
      FigureIdAtNone(t, k);
    }
  }

  /** The figure pattern succeeds from the LAST whitespace before the first
      `>` where the rest of it succeeds. */
  lemma FigureAtIs(t: string, i: nat, g: nat, hit: Hit)
    requires StartsAt(t, i, FIGURE_OPEN) && FindChar(t, i + |FIGURE_OPEN|, '>') == g
    requires forall k :: i + |FIGURE_OPEN| < k <= g ==> FigureIdAt(t, k) == None
    requires FigureIdAt(t, i + |FIGURE_OPEN|) == Some(hit)
    ensures FigureAt(t, i) == Some(hit)
  {
    FigureFromDown(t, i, g, i + |FIGURE_OPEN|);
    FigureFromHit(t, i, i + |FIGURE_OPEN|, hit);
  }

  /** The figure pattern matches a written figure at `i` up to the end of
      its `<p>`, capturing the id, whatever follows. */
  lemma FigureMatch(t: string, i: nat, n: nat, id: string, gap: string)
    requires PlainId(id) && AllIn(Space, gap) && StartsAt(t, i, FigureText(id, gap))
    requires n == i + |FigureText(id, gap)|
    ensures FigureAt(t, i) == Some(Hit(n, [id]))
  {
    FigureTextParts(t, i, i + |FIGURE_OPEN|, i + |FIGURE_OPEN| + 5 + |id|, id, gap);
    FigureTagWritten(t, i + |FIGURE_OPEN|, i + |FIGURE_OPEN| + 5 + |id|, id);
    FigureIdWritten(t, i + |FIGURE_OPEN|, i + |FIGURE_OPEN| + 5 + |id|, n, id, gap);
    FigureAtIs(t, i, i + |FIGURE_OPEN| + 5 + |id| + 1, Hit(n, [id]));
  }

  /** The figure `<figure id="f">` whose caption starts, after a space,
      with a paragraph: the match takes everything up to the `<p>`. */
  lemma FigureExample(t: string)
    requires t == "<figure id=\"f\"><figcaption> <p>X"
    ensures FigureAt(t, 0) == Some(Hit(31, ["f"]))
  {
    assert t == FigureText("f", " ") + "X";
    assert t[0..31] == FigureText("f", " ");
    FigureMatch(t, 0, 31, "f", " ");
  }

  /** A figure without a caption, closed, and a figure with one: the text
      `<figure id="a"></figure><figure id="b"><figcaption>`. */
  predicate CaptionlessText(t: string) {
    t == FIGURE_OPEN + " id=\"" + "a" + "\">" + "<" + "/figure>" + "<" + "figure id=\"b\">" + CAPTION_OPEN
  }

  lemma CaptionlessParts(t: string)
    requires CaptionlessText(t)
    ensures |t| == 51 && StartsAt(t, 0, FIGURE_OPEN) && StartsAt(t, 7, " id=\"") && StartsAt(t, 12, "a")
    ensures StartsAt(t, 13, "\">") && StartsAt(t, 16, "/figure>") && StartsAt(t, 25, "figure id=\"b\">")
    ensures StartsAt(t, 39, CAPTION_OPEN)
  {
    var a := FIGURE_OPEN + " id=\"" + "a" + "\">";
    var b := a + "<" + "/figure>" + "<";
    assert t[0..|t|] == t;
    StartsAtSplit(t, 0, b + "figure id=\"b\">", CAPTION_OPEN);
    StartsAtSplit(t, 0, b, "figure id=\"b\">");
    StartsAtSplit(t, 0, a + "<", "/figure>");
    StartsAtSplit(t, 0, FIGURE_OPEN + " id=\"" + "a", "\">");
    StartsAtSplit(t, 0, FIGURE_OPEN + " id=\"", "a");
    StartsAtSplit(t, 0, FIGURE_OPEN, " id=\"");
  }

  /** The search for `<figcaption>` after the first id passes over
      `</figure>` and the second opening tag. */
  lemma CaptionlessSearch(t: string)
    requires |t| == 51 && StartsAt(t, 13, "\">") && StartsAt(t, 16, "/figure>")
    requires StartsAt(t, 25, "figure id=\"b\">") && StartsAt(t, 39, CAPTION_OPEN)
    ensures FindLit(t, 14, CAPTION_OPEN) == Some(39)
  {
    CharAt(t, 13, "\">", 1);
    CharAt(t, 16, "/figure>", 0);
    CharAt(t, 25, "figure id=\"b\">", 3);
    PastClosingTag(t);
    PastOpeningTag(t);
  }

  lemma PastClosingTag(t: string)
    requires |t| == 51 && t[14] == '>' && t[16] == '/' && StartsAt(t, 16, "/figure>")
    ensures FindLit(t, 14, CAPTION_OPEN) == FindLit(t, 24, CAPTION_OPEN)
  {
    assert CAPTION_OPEN[0] == '<' && CAPTION_OPEN[1] == 'f';
    FindLitPast(t, 14, CAPTION_OPEN, 0);
    FindLitPast(t, 15, CAPTION_OPEN, 1);
    assert '<' !in "/figure>";
    FindLitSkip(t, 16, "/figure>", CAPTION_OPEN);
  }

  lemma PastOpeningTag(t: string)
    requires |t| == 51 && t[28] == 'u' && StartsAt(t, 25, "figure id=\"b\">") && StartsAt(t, 39, CAPTION_OPEN)
    ensures FindLit(t, 24, CAPTION_OPEN) == Some(39)
  {
    assert CAPTION_OPEN[0] == '<' && CAPTION_OPEN[4] == 'c';
    FindLitPast(t, 24, CAPTION_OPEN, 4);
    assert '<' !in "figure id=\"b\">";
    FindLitSkip(t, 25, "figure id=\"b\">", CAPTION_OPEN);
  }

  /** The lazy `.*?` does not stop at `</figure>`: a figure without a
      caption, followed by one with a caption, matches up to the second
      figure's `<figcaption>` and captures the first figure's id. */
  lemma CaptionlessFigure(t: string)
    requires CaptionlessText(t)
    ensures FigureAt(t, 0) == Some(Hit(51, ["a"]))
  {
    CaptionlessParts(t);
    CaptionlessSearch(t);
    assert CaptionAfter(t, 13) == Some(51);
    FigureTagWritten(t, 7, 13, "a");
    IdAttributeWritten(t, 7, 13, "a");
    FigureIdAtIs(t, 7, 12, 13, 51);
    FigureAtIs(t, 0, 14, Hit(51, ["a"]));
  }

  /** The figure pattern is case-sensitive: an upper-case `<FIGURE` tag is
      not matched. */
  lemma UpperCaseFigure(t: string, i: nat)
    requires i <= |t| && StartsAt(t, i, "<FIGURE")
    ensures FigureAt(t, i) == None
  {
    StartsAtChars(t, i, "<FIGURE");
    NotStartsAt(t, i, FIGURE_OPEN, 1);
  }

  /** An opening tag `<name attrs id="id">`: `attrs` is what comes between
      the tag name and the id attribute. */
  function OpeningTagText(name: string, attrs: string, id: string): string {
    "<" + name + attrs + " id=\"" + id + "\">"
  }

  /** What the opening-tag pattern captures as the attribute list of that tag. */
  function AttributeListText(attrs: string, id: string): string {
    attrs + " id=\"" + id + "\""
  }

  /** An opening tag as authors write it: a tag name of word characters, then
      attributes that do not continue the name and hold no `>`, the id last. */
  predicate WrittenTag(name: string, attrs: string, id: string) {
    && name != [] && AllIn(Word, name)
    && (attrs == [] || !IsWordChar(attrs[0]))
    && (forall k :: 0 <= k < |attrs| ==> attrs[k] != '>')
    && PlainId(id)
  }

  /** The parts of a written opening tag at `i`: the tag name ends at `w`,
      the whitespace before `id=` is at `q` and the closing quote at `c`. */
  lemma TagTextParts(t: string, i: nat, w: nat, q: nat, c: nat, name: string, attrs: string, id: string)
    requires StartsAt(t, i, OpeningTagText(name, attrs, id))
    requires w == i + 1 + |name| && q == w + |attrs| && c == q + 5 + |id|
    ensures i < |t| && t[i] == '<' && StartsAt(t, i + 1, name) && StartsAt(t, w, attrs)
    ensures StartsAt(t, q, " id=\"") && StartsAt(t, q + 5, id) && StartsAt(t, c, "\">")
    ensures StartsAt(t, w, AttributeListText(attrs, id))
  {
    StartsAtSplit(t, i, "<" + name + attrs + " id=\"" + id, "\">");
    StartsAtSplit(t, i, "<" + name + attrs + " id=\"", id);
    StartsAtSplit(t, i, "<" + name + attrs, " id=\"");
    StartsAtSplit(t, i, "<" + name, attrs);
    StartsAtSplit(t, i, "<", name);
    StartsAtChars(t, i, "<");
    assert OpeningTagText(name, attrs, id) == "<" + name + AttributeListText(attrs, id) + ">";
    StartsAtSplit(t, i, "<" + name + AttributeListText(attrs, id), ">");
    StartsAtSplit(t, i, "<" + name, AttributeListText(attrs, id));
  }

  lemma TagIdAtNone(t: string, i: nat, w: nat, q: nat)
    requires i < |t| && t[i] == '<' && i + 1 < w <= q < |t| && AllIn(Word, t[i + 1..w])
    requires w == |t| || !IsWordChar(t[w])
    requires forall k :: w <= k < q ==> t[k] != '>'
    requires !IsSpace(t[q])
    ensures TagIdAt(t, i, w, q) == None
  {
  }


  /** Trying the whitespace before `id=` from `q` down to `q0`: positions
      where the rest of the pattern fails are passed over. */
  lemma TagFromDown(t: string, i: nat, w: nat, q: nat, q0: nat)
    requires i < |t| && t[i] == '<' && i + 1 < w <= q0 <= q <= |t| && AllIn(Word, t[i + 1..w])
    requires w == |t| || !IsWordChar(t[w])
    requires forall k :: w <= k < q ==> t[k] != '>'
    requires forall k :: q0 < k <= q ==> TagIdAt(t, i, w, k) == None
    ensures TagFrom(t, i, w, q) == TagFrom(t, i, w, q0)
  {
  }

  lemma TagFromHit(t: string, i: nat, w: nat, q: nat, hit: Hit)
    requires i < |t| && t[i] == '<' && i + 1 < w <= q <= |t| && AllIn(Word, t[i + 1..w])
    requires w == |t| || !IsWordChar(t[w])
    requires forall k :: w <= k < q ==> t[k] != '>'
    requires TagIdAt(t, i, w, q) == Some(hit)
    ensures TagFrom(t, i, w, q) == Some(hit)
  {
  }

  /** The rest of the opening-tag pattern after the id value `t[v..c]`
      when `>` directly follows the closing quote. */
  lemma TagIdAtIs(t: string, i: nat, w: nat, q: nat, v: nat, c: nat, e: nat)
    requires i < |t| && t[i] == '<' && i + 1 < w <= q < |t| && AllIn(Word, t[i + 1..w])
    requires w == |t| || !IsWordChar(t[w])
    requires forall k :: w <= k < q ==> t[k] != '>'
    requires IdAt(t, q) == Some((v, c)) && c + 1 < |t| && t[c + 1] == '>' && e == c + 2
    ensures TagIdAt(t, i, w, q) == Some(Hit(e, [t[i + 1..w], t[w..c + 1], t[v..c]]))
  {
    FindCharIs(t, c + 1, c + 1, '>');
  }

  /** The name of a written tag ends where the tag name ends. */
  lemma TagNameWritten(t: string, i: nat, w: nat, name: string)
    requires StartsAt(t, i + 1, name) && AllIn(Word, name) && w == i + 1 + |name|
    requires w < |t| && !IsWordChar(t[w])
    ensures Span(t, i + 1, Word) == w && AllIn(Word, t[i + 1..w]) && t[i + 1..w] == name
  {
    StartsAtChars(t, i + 1, name);
    SpanIs(t, i + 1, w, Word);
  }

  /** The characters between the tag name at `w` and the closing quote at `c`
      of a written tag: no `>`, and none after the whitespace at `q` is
      whitespace. */
  lemma TagAttributesWritten(t: string, w: nat, q: nat, c: nat, attrs: string, id: string)
    requires PlainId(id) && q == w + |attrs| && c == q + 5 + |id|
    requires forall k :: 0 <= k < |attrs| ==> attrs[k] != '>'
    requires StartsAt(t, w, attrs) && StartsAt(t, q, " id=\"") && StartsAt(t, q + 5, id) && StartsAt(t, c, "\">")
    ensures FindChar(t, w, '>') == c + 1
    ensures attrs == [] ==> IsSpace(t[w])
    ensures attrs != [] ==> t[w] == attrs[0]
  {
    IdAttributeChars(t, q, c, id);
    StartsAtChars(t, w, attrs);
    forall k | w <= k < c + 1 ensures t[k] != '>' {
      if k < q {
        assert t[k] == attrs[k - w];
      }
    }
    FindCharIs(t, w, c + 1, '>');
  }

  /** The opening-tag pattern succeeds at `i` from the LAST whitespace
      before the first `>` where the rest of it succeeds. */
  lemma TagAtIs(t: string, i: nat, w: nat, g: nat, hit: Hit)
    requires i < |t| && t[i] == '<' && Span(t, i + 1, Word) == w && i + 1 < w
    requires FindChar(t, w, '>') == g
    requires exists q :: w <= q <= g && (forall k :: q < k <= g ==> TagIdAt(t, i, w, k) == None) && TagIdAt(t, i, w, q) == Some(hit)
    ensures TagAt(t, i) == Some(hit)
  {
    var q :| w <= q <= g && (forall k :: q < k <= g ==> TagIdAt(t, i, w, k) == None) && TagIdAt(t, i, w, q) == Some(hit);
    TagFromDown(t, i, w, g, q);
    TagFromHit(t, i, w, q, hit);
  }

  /** What the searches of the opening-tag pattern find in a written tag at
      `i` whose name ends at `w`, with the whitespace before `id=` at `q`
      and the closing quote at `c`. */
  lemma TagWritten(t: string, i: nat, w: nat, q: nat, c: nat, name: string, attrs: string, id: string)
    requires WrittenTag(name, attrs, id) && StartsAt(t, i, OpeningTagText(name, attrs, id))
    requires w == i + 1 + |name| && q == w + |attrs| && c == q + 5 + |id|
    ensures i < |t| && t[i] == '<' && i + 1 < w <= q && c + 1 < |t| && t[c + 1] == '>'
    ensures Span(t, i + 1, Word) == w && AllIn(Word, t[i + 1..w]) && !IsWordChar(t[w])
    ensures FindChar(t, w, '>') == c + 1 && IdAt(t, q) == Some((q + 5, c))
    ensures forall k :: q < k <= c + 1 ==> !IsSpace(t[k])
    ensures t[i + 1..w] == name && t[w..c + 1] == AttributeListText(attrs, id) && t[q + 5..c] == id
  {
    TagTextParts(t, i, w, q, c, name, attrs, id);
    TagAttributesWritten(t, w, q, c, attrs, id);
    IdAttributeWritten(t, q, c, id);
    IdAttributeChars(t, q, c, id);
    TagNameWritten(t, i, w, name);
    StartsAtIs(t, w, c + 1, AttributeListText(attrs, id));
  }

  /** A written opening tag at `i` with its parts at `w`, `q` and `c` is
      matched as a whole, up to `e`. */
  lemma OpeningTagAt(t: string, i: nat, w: nat, q: nat, c: nat, e: nat, name: string, attrs: string, id: string)
    requires WrittenTag(name, attrs, id) && StartsAt(t, i, OpeningTagText(name, attrs, id))
    requires w == i + 1 + |name| && q == w + |attrs| && c == q + 5 + |id| && e == c + 2
    ensures TagAt(t, i) == Some(Hit(e, [name, AttributeListText(attrs, id), id]))
  {
    TagWritten(t, i, w, q, c, name, attrs, id);
    TagIdAtIs(t, i, w, q, q + 5, c, e);
    forall k | q < k <= c + 1 ensures TagIdAt(t, i, w, k) == None {
      TagIdAtNone(t, i, w, k);
    }
    TagAtIs(t, i, w, c + 1, Hit(e, [name, AttributeListText(attrs, id), id]));
  }

  /** The opening-tag pattern matches a written opening tag at `i` as a
      whole, up to its end `n`, capturing its name, its attribute list and
      its id. */
  lemma OpeningTagMatch(t: string, i: nat, n: nat, name: string, attrs: string, id: string)
    requires WrittenTag(name, attrs, id) && StartsAt(t, i, OpeningTagText(name, attrs, id))
    requires n == i + |OpeningTagText(name, attrs, id)|
    ensures TagAt(t, i) == Some(Hit(n, [name, AttributeListText(attrs, id), id]))
  {
    OpeningTagAt(t, i, i + 1 + |name|, i + 1 + |name| + |attrs|, i + 1 + |name| + |attrs| + 5 + |id|, n, name, attrs, id);
  }

  // ---------------------------------------------------------------- all four

  function MatchAt(p: Pattern, t: string, i: nat): (r: Option<Hit>)
    requires i <= |t|
    ensures r.Some? ==> i < r.value.end <= |t| && Captures(p, r.value.groups)
    ensures r.Some? && p == EmptyLink ==> r.value.groups[0] + r.value.groups[2] == t[i..r.value.end]
  {
    match p
    case OpeningTag => TagAt(t, i)
    case Attribute => AttributeAt(t, i)
    case FigureCaption => FigureAt(t, i)
    case EmptyLink => LinkAt(t, i)
  }

  /** `String#scan` with a pattern that has groups, from position `i` on: the
      groups of every match, left to right; after a match the search resumes
      where it ended, otherwise one character further on. */
  function ScanFrom(p: Pattern, t: string, i: nat): (r: seq<seq<string>>)
    requires i <= |t|
    ensures forall k :: 0 <= k < |r| ==> Captures(p, r[k])
    decreases |t| - i
  {
    if i == |t| then []
    else
      match MatchAt(p, t, i)
      case Some(hit) => [hit.groups] + ScanFrom(p, t, hit.end)
      case None => ScanFrom(p, t, i + 1)
  }

  function Scan(p: Pattern, t: string): (r: seq<seq<string>>)
    ensures forall k :: 0 <= k < |r| ==> Captures(p, r[k])
  {
    ScanFrom(p, t, 0)
  }

  /** One step of the scan: a match at `i` is reported, then the scan goes
      on where the match ended. */
  lemma ScanHit(p: Pattern, t: string, i: nat, hit: Hit)
    requires i <= |t| && MatchAt(p, t, i) == Some(hit)
    ensures ScanFrom(p, t, i) == [hit.groups] + ScanFrom(p, t, hit.end)
  {
  }

  // ------------------------------------------------------ scanning a document

  /** A piece of a document: text without `<`, then a written opening
      tag. */
  datatype Element = Element(before: string, name: string, attrs: string, id: string)

  predicate WellWritten(e: Element) {
    '<' !in e.before && WrittenTag(e.name, e.attrs, e.id)
  }

  function ElementText(e: Element): string {
    e.before + OpeningTagText(e.name, e.attrs, e.id)
  }

  /** The elements written one after another. */
  function DocumentText(es: seq<Element>): string
    decreases |es|
  {
    if es == [] then "" else ElementText(es[0]) + DocumentText(es[1..])
  }

  /** The groups the opening-tag pattern captures in the tag of an element. */
  function TagGroups(e: Element): seq<string> {
    [e.name, AttributeListText(e.attrs, e.id), e.id]
  }

  function ElementGroups(es: seq<Element>): (gs: seq<seq<string>>)
    ensures |gs| == |es|
    decreases |es|
  {
    if es == [] then [] else [TagGroups(es[0])] + ElementGroups(es[1..])
  }

  lemma ElementGroupsCons(e: Element, es: seq<Element>)
    ensures ElementGroups([e] + es) == [TagGroups(e)] + ElementGroups(es)
  {
    assert ([e] + es)[1..] == es;
  }

  /** The scan passes over text without `<`: no tag starts there. */
  lemma {:induction false} ScanSkip(t: string, i: nat, j: nat)
    requires i <= j <= |t| && forall k :: i <= k < j ==> t[k] != '<'
    ensures ScanFrom(OpeningTag, t, i) == ScanFrom(OpeningTag, t, j)
    decreases j - i
  {
    if i < j {
      ScanSkip(t, i + 1, j);
    }
  }

  /** Where the parts of an element followed by `rest` are. */
  lemma ElementParts(t: string, i: nat, j: nat, n: nat, e: Element, rest: string)
    requires '<' !in e.before && i <= |t| && t[i..] == ElementText(e) + rest
    requires j == i + |e.before| && n == j + |OpeningTagText(e.name, e.attrs, e.id)|
    ensures j <= |t| && forall k :: i <= k < j ==> t[k] != '<'
    ensures StartsAt(t, j, OpeningTagText(e.name, e.attrs, e.id))
    ensures n <= |t| && t[n..] == rest
  {
    assert t[i..] == e.before + (OpeningTagText(e.name, e.attrs, e.id) + rest);
    SuffixSplit(t, i, e.before, OpeningTagText(e.name, e.attrs, e.id) + rest);
    SuffixSplit(t, j, OpeningTagText(e.name, e.attrs, e.id), rest);
    StartsAtChars(t, i, e.before);
  }

  /** One element: the scan passes over the text before its tag, reports the
      tag and goes on at `n`, after the tag. */
  lemma ScanElement(t: string, i: nat, j: nat, n: nat, e: Element)
    requires WellWritten(e) && i <= j <= |t| && (forall k :: i <= k < j ==> t[k] != '<')
    requires StartsAt(t, j, OpeningTagText(e.name, e.attrs, e.id))
    requires n == j + |OpeningTagText(e.name, e.attrs, e.id)|
    ensures n <= |t| && ScanFrom(OpeningTag, t, i) == [TagGroups(e)] + ScanFrom(OpeningTag, t, n)
  {
    ScanSkip(t, i, j);
    OpeningTagMatch(t, j, n, e.name, e.attrs, e.id);
    ScanHit(OpeningTag, t, j, Hit(n, TagGroups(e)));
  }

  /** Text without `<` holds no match. */
  lemma ScanRest(t: string, i: nat, rest: string)
    requires i <= |t| && t[i..] == rest && '<' !in rest
    ensures ScanFrom(OpeningTag, t, i) == []
  {
    forall k | i <= k < |t| ensures t[k] != '<' {
      assert t[k] == rest[k - i];
    }
    ScanSkip(t, i, |t|);
  }

  /** A document of well-written elements followed by text without `<`:
      the scan of create_labels reports the tag of every element, in order,
      and nothing else. */
  lemma {:induction false} ScanElements(t: string, i: nat, es: seq<Element>, rest: string)
    requires i <= |t| && t[i..] == DocumentText(es) + rest && '<' !in rest
    requires forall k :: 0 <= k < |es| ==> WellWritten(es[k])
    ensures ScanFrom(OpeningTag, t, i) == ElementGroups(es)
    decreases |es|
  {
    if es == [] {
      ScanRest(t, i, rest);
    } else {
      var e := es[0];
      var j := i + |e.before|;
      var n := j + |OpeningTagText(e.name, e.attrs, e.id)|;
      AppendAssociative(ElementText(e), DocumentText(es[1..]), rest);
      ElementParts(t, i, j, n, e, DocumentText(es[1..]) + rest);
      ScanElement(t, i, j, n, e);
      ScanElements(t, n, es[1..], rest);
    }
  }

  lemma WholeSuffix(t: string)
    ensures t[0..] == t
  {
  }

  /** The same for a whole document followed by text without `<`: `scan`
      returns `gs`, the groups of the tags of the elements. */
  lemma ScanDocument(es: seq<Element>, rest: string, gs: seq<seq<string>>)
    requires forall k :: 0 <= k < |es| ==> WellWritten(es[k])
    requires '<' !in rest && gs == ElementGroups(es)
    ensures Scan(OpeningTag, DocumentText(es) + rest) == gs
  {
    WholeSuffix(DocumentText(es) + rest);
    ScanElements(DocumentText(es) + rest, 0, es, rest);
  }
}

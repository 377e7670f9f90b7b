/** add_labels_to_figures and set_reference_labels
    (lib/markupfilter.rb:72-91): `gsub!` with a block over the document.
    The document is read as a sequence of pieces: characters outside any
    match are kept, and every match becomes a piece that may receive an
    insertion, exactly when its id has a label. Neither pattern looks
    behind the position where it is tried, so `gsub!` is written as a walk
    that tries the pattern at the start of the rest of the document. */
module Rewriting {
  import opened Text
  import opened Patterns

  /** The two patterns the filter substitutes with. */
  predicate Rewriter(p: Pattern) {
    p == FigureCaption || p == EmptyLink
  }

  /** The pattern of a rewriter tried at the start of `s`. */
  function RewriteAt(p: Pattern, s: string): (r: Option<Hit>)
    requires Rewriter(p)
    ensures r.Some? ==> 0 < r.value.end <= |s| && Captures(p, r.value.groups)
    ensures r.Some? && p == EmptyLink ==> r.value.groups[0] + r.value.groups[2] == s[..r.value.end]
  {
    if p == FigureCaption then FigureAt(s, 0) else LinkAt(s, 0)
  }

  /** A kept character, or a match split where the label goes in: the match
      is `pre + post`, and `ins` is inserted between them. */
  datatype Piece =
    | Kept(c: char)
    | Replaced(pre: string, ins: string, post: string, id: string)

  const SPAN_OPEN: string := "<span class=\"label\">"
  const SPAN_CLOSE: string := ":</span> "

  /** What goes in for an escaped label: a label span after a figure caption,
      the bare text inside an empty link. */
  function Wrap(p: Pattern, escaped: string): string {
    if p == FigureCaption then SPAN_OPEN + escaped + SPAN_CLOSE else escaped
  }

  /** The id group of a match: `$1` of the figure pattern, `$2` of the link
      pattern. */
  function IdOf(p: Pattern, groups: seq<string>): string
    requires Rewriter(p) && Captures(p, groups)
  {
    if p == FigureCaption then groups[0] else groups[1]
  }

  /** The block of `gsub!` applied to the match `hit` at the start of `s`. */
  function Replacement(p: Pattern, s: string, hit: Hit,
                       labels: map<string, string>, h: string -> string): (r: Piece)
    requires Rewriter(p) && RewriteAt(p, s) == Some(hit)
    ensures r.Replaced? && r.pre + r.post == s[..hit.end]
  {
    var id := IdOf(p, hit.groups);
    var ins := if id in labels then Wrap(p, h(labels[id])) else "";
    if p == FigureCaption then Replaced(s[..hit.end], ins, "", id)
    else Replaced(hit.groups[0], ins, hit.groups[2], id)
  }

  /** The pieces of `s`, as `gsub!` walks it: a match at its start is
      replaced and the walk goes on after the match, otherwise the first
      character is kept. */
  function Pieces(p: Pattern, s: string, labels: map<string, string>, h: string -> string): seq<Piece>
    requires Rewriter(p)
    decreases |s|
  {
    if s == [] then []
    else
      match RewriteAt(p, s)
      case Some(hit) => [Replacement(p, s, hit, labels, h)] + Pieces(p, s[hit.end..], labels, h)
      case None => [Kept(s[0])] + Pieces(p, s[1..], labels, h)
  }

  function Out(piece: Piece): string {
    match piece
    case Kept(c) => [c]
    case Replaced(pre, ins, post, _) => pre + ins + post
  }

  /** The text the pieces are written as. */
  function Output(ps: seq<Piece>): string
    decreases |ps|
  {
    if ps == [] then "" else Out(ps[0]) + Output(ps[1..])
  }

  /** The text the pieces were cut from: the output with every insertion
      taken out. */
  function Original(ps: seq<Piece>): string
    decreases |ps|
  {
    if ps == [] then ""
    else (match ps[0] case Kept(c) => [c] case Replaced(pre, _, post, _) => pre + post) + Original(ps[1..])
  }

  /** The document after `gsub!`. */
  function Rewrite(p: Pattern, t: string, labels: map<string, string>, h: string -> string): string
    requires Rewriter(p)
  {
    Output(Pieces(p, t, labels, h))
  }

  /** One step of `gsub!` on the rest `s` of the document: the piece at its
      start and how much of it the piece takes. */
  function NextPiece(p: Pattern, s: string,
                     labels: map<string, string>, h: string -> string): (r: (Piece, nat))
    requires Rewriter(p) && s != []
    ensures 0 < r.1 <= |s|
    ensures Rewrite(p, s, labels, h) == Out(r.0) + Rewrite(p, s[r.1..], labels, h)
  {
    match RewriteAt(p, s)
    case Some(hit) =>
      MatchedStep(p, s, hit, labels, h);
      (Replacement(p, s, hit, labels, h), hit.end)
    case None =>
      KeptStep(p, s, labels, h);
      (Kept(s[0]), 1)
  }

  /** `gsub!` with the block of add_labels_to_figures or
      set_reference_labels: the new text is built left to right while the
      rest of the document shrinks. */
  method Substitute(p: Pattern, t: string, labels: map<string, string>, h: string -> string)
    returns (out: string)
    requires Rewriter(p)
    ensures out == Rewrite(p, t, labels, h)
  {
    out := "";
    var rest := t;
    while rest != []
      invariant out + Rewrite(p, rest, labels, h) == Rewrite(p, t, labels, h)
      decreases |rest|
    {
      var (piece, next) := NextPiece(p, rest, labels, h);
      AppendAssociative(out, Out(piece), Rewrite(p, rest[next..], labels, h));
      out := out + Out(piece);
      rest := rest[next..];
    }
  }

  /** A match at the start is written as its replacement, then the walk
      goes on after it. */
  lemma MatchedStep(p: Pattern, s: string, hit: Hit, labels: map<string, string>, h: string -> string)
    requires Rewriter(p) && s != [] && RewriteAt(p, s) == Some(hit)
    ensures Rewrite(p, s, labels, h) == Out(Replacement(p, s, hit, labels, h)) + Rewrite(p, s[hit.end..], labels, h)
  {
    var ps := Pieces(p, s, labels, h);
    assert ps[1..] == Pieces(p, s[hit.end..], labels, h);
  }

  /** A first character where nothing matches is kept. */
  lemma KeptStep(p: Pattern, s: string, labels: map<string, string>, h: string -> string)
    requires Rewriter(p) && s != [] && RewriteAt(p, s) == None
    ensures Rewrite(p, s, labels, h) == [s[0]] + Rewrite(p, s[1..], labels, h)
  {
    var ps := Pieces(p, s, labels, h);
    assert ps[1..] == Pieces(p, s[1..], labels, h);
  }

  // ------------------------------------------------------------ properties

  lemma SplitAt(s: string, d: nat)
    requires d <= |s|
    ensures s[..d] + s[d..] == s
  {
  }

  /** Without its insertion, a match piece is the matched text. */
  lemma OriginalMatched(p: Pattern, s: string, hit: Hit, labels: map<string, string>, h: string -> string)
    requires Rewriter(p) && s != [] && RewriteAt(p, s) == Some(hit)
    ensures Original(Pieces(p, s, labels, h)) == s[..hit.end] + Original(Pieces(p, s[hit.end..], labels, h))
  {
    var ps := Pieces(p, s, labels, h);
    assert ps[1..] == Pieces(p, s[hit.end..], labels, h);
  }

  lemma OriginalKept(p: Pattern, s: string, labels: map<string, string>, h: string -> string)
    requires Rewriter(p) && s != [] && RewriteAt(p, s) == None
    ensures Original(Pieces(p, s, labels, h)) == [s[0]] + Original(Pieces(p, s[1..], labels, h))
  {
    var ps := Pieces(p, s, labels, h);
    assert ps[1..] == Pieces(p, s[1..], labels, h);
  }

  /** The rewriting only inserts: taking the insertions out of the result
      gives back the document. */
  lemma {:induction false} InsertionOnly(p: Pattern, s: string, labels: map<string, string>, h: string -> string)
    requires Rewriter(p)
    ensures Original(Pieces(p, s, labels, h)) == s
    decreases |s|
  {
    if s != [] {
      match RewriteAt(p, s)
      case Some(hit) =>
        OriginalMatched(p, s, hit, labels, h);
        InsertionOnly(p, s[hit.end..], labels, h);
        SplitAt(s, hit.end);
      case None =>
        OriginalKept(p, s, labels, h);
        InsertionOnly(p, s[1..], labels, h);
        SplitAt(s, 1);
        assert s[..1] == [s[0]];
    }
  }

  /** What each piece of a rewrite is: a match piece receives the wrapped,
      escaped label of its id when the id has a label and nothing otherwise;
      a figure match receives it after its `<figcaption>` or `<p>`, with
      nothing of the match behind it; a link match is an empty link to its
      id, and receives it between the two tags. */
  predicate PieceFacts(p: Pattern, piece: Piece, labels: map<string, string>, h: string -> string) {
    piece.Replaced? ==>
      && piece.ins == (if piece.id in labels then Wrap(p, h(labels[piece.id])) else "")
      && (p == FigureCaption ==> piece.post == "" && CaptionPrefix(piece.pre))
      && (p == EmptyLink ==> piece.pre == LINK_OPEN + piece.id + "\">" && piece.post == LINK_CLOSE)
  }

  lemma ReplacementFacts(p: Pattern, s: string, hit: Hit, labels: map<string, string>, h: string -> string)
    requires Rewriter(p) && RewriteAt(p, s) == Some(hit)
    ensures PieceFacts(p, Replacement(p, s, hit, labels, h), labels, h)
  {
    if p == FigureCaption {
      FigureMatchEnd(s, 0);
      assert s[0..hit.end] == s[..hit.end];
    }
  }

  predicate AllFacts(p: Pattern, ps: seq<Piece>, labels: map<string, string>, h: string -> string) {
    forall k :: 0 <= k < |ps| ==> PieceFacts(p, ps[k], labels, h)
  }

  lemma FactsCons(p: Pattern, piece: Piece, ps: seq<Piece>, labels: map<string, string>, h: string -> string)
    requires PieceFacts(p, piece, labels, h) && AllFacts(p, ps, labels, h)
    ensures AllFacts(p, [piece] + ps, labels, h)
  {
    assert forall k :: 1 <= k < |ps| + 1 ==> ([piece] + ps)[k] == ps[k - 1];
  }

  lemma {:induction false} PiecesFacts(p: Pattern, s: string, labels: map<string, string>, h: string -> string)
    requires Rewriter(p)
    ensures AllFacts(p, Pieces(p, s, labels, h), labels, h)
    decreases |s|
  {
    if s != [] {
      match RewriteAt(p, s)
      case Some(hit) =>
        ReplacementFacts(p, s, hit, labels, h);
        PiecesFacts(p, s[hit.end..], labels, h);
        FactsCons(p, Replacement(p, s, hit, labels, h), Pieces(p, s[hit.end..], labels, h), labels, h);
      case None =>
        PiecesFacts(p, s[1..], labels, h);
        FactsCons(p, Kept(s[0]), Pieces(p, s[1..], labels, h), labels, h);
    }
  }

  /** What goes in at a match is the wrapped, escaped label of its id when
      the id has a label, and nothing otherwise. */
  lemma InsertionsAreLabels(p: Pattern, t: string, labels: map<string, string>, h: string -> string)
    requires Rewriter(p)
    ensures forall piece :: piece in Pieces(p, t, labels, h) && piece.Replaced? ==>
      piece.ins == (if piece.id in labels then Wrap(p, h(labels[piece.id])) else "")
  {
    PiecesFacts(p, t, labels, h);
  }

  /** No match tried anywhere in `s` has an id with a label. */
  predicate UnknownIds(p: Pattern, s: string, labels: map<string, string>)
    requires Rewriter(p)
  {
    forall k :: 0 <= k < |s| && RewriteAt(p, s[k..]).Some? ==> IdOf(p, RewriteAt(p, s[k..]).value.groups) !in labels
  }

  lemma UnknownIdsSuffix(p: Pattern, s: string, d: nat, labels: map<string, string>)
    requires Rewriter(p) && d <= |s| && UnknownIds(p, s, labels)
    ensures UnknownIds(p, s[d..], labels)
  {
    forall k | 0 <= k < |s[d..]| ensures s[d..][k..] == s[d + k..] { }
  }

  /** A match whose id has no label is written as it was. */
  lemma UnknownMatchKept(p: Pattern, s: string, hit: Hit, labels: map<string, string>, h: string -> string)
    requires Rewriter(p) && RewriteAt(p, s) == Some(hit) && IdOf(p, hit.groups) !in labels
    ensures Out(Replacement(p, s, hit, labels, h)) == s[..hit.end]
  {
  }

  /** A document in which no match has an id with a label comes out
      unchanged; in particular every document does when there are no
      labels. */
  lemma {:induction false} UnknownIdsUnchanged(p: Pattern, t: string, labels: map<string, string>, h: string -> string)
    requires Rewriter(p) && UnknownIds(p, t, labels)
    ensures Rewrite(p, t, labels, h) == t
    decreases |t|
  {
    if t != [] {
      match RewriteAt(p, t)
      case Some(hit) =>
        assert IdOf(p, hit.groups) !in labels by { assert t[0..] == t; }
        UnknownMatchKept(p, t, hit, labels, h);
        MatchedStep(p, t, hit, labels, h);
        UnknownIdsSuffix(p, t, hit.end, labels);
        UnknownIdsUnchanged(p, t[hit.end..], labels, h);
        SplitAt(t, hit.end);
      case None =>
        KeptStep(p, t, labels, h);
        UnknownIdsSuffix(p, t, 1, labels);
        UnknownIdsUnchanged(p, t[1..], labels, h);
        SplitAt(t, 1);
        assert t[..1] == [t[0]];
    }
  }

  lemma NoLabelsUnchanged(p: Pattern, t: string, h: string -> string)
    requires Rewriter(p)
    ensures Rewrite(p, t, map[], h) == t
  {
    UnknownIdsUnchanged(p, t, map[], h);
  }

  // ------------------------------------------------------ where insertions go

  /** `s` is a whole figure match: it starts with `<figure` and ends with
      `<figcaption>`, or with `<figcaption>`, whitespace and `<p>`. */
  predicate CaptionPrefix(s: string) {
    StartsAt(s, 0, FIGURE_OPEN) && exists f :: 0 <= f < |s| && CaptionEnd(s, f, |s|)
  }

  lemma CaptionEndSlice(t: string, i: nat, f: nat, e: nat)
    requires i <= f && CaptionEnd(t, f, e)
    ensures CaptionEnd(t[i..e], f - i, e - i)
  {
    var s := t[i..e];
    var a := f + |CAPTION_OPEN|;
    StartsAtSlice(t, i, e, f, CAPTION_OPEN);
    if e == a {
      assert Span(s, a - i, Space) == |s|;
    } else {
      StartsAtSlice(t, i, e, e - |PARA_OPEN|, PARA_OPEN);
      forall k | a - i <= k < e - i - |PARA_OPEN| ensures IsSpace(s[k]) {
        assert s[k] == t[i + k];
      }
    }
  }

  /** A figure match starts with `<figure` and ends with `<figcaption>` or
      with `<figcaption>`, whitespace and `<p>`. */
  lemma FigureMatchEnd(t: string, i: nat)
    requires i <= |t| && FigureAt(t, i).Some?
    ensures CaptionPrefix(t[i..FigureAt(t, i).value.end])
  {
    var hit := FigureAt(t, i).value;
    var q, f :| FigureShape(t, i, hit.end, q, f, hit.groups[0]);
    ShapePrefix(t, i, hit.end, q, f, hit.groups[0]);
  }

  /** The text of a figure match is a caption prefix. */
  lemma ShapePrefix(t: string, i: nat, e: nat, q: nat, f: nat, id: string)
    requires FigureShape(t, i, e, q, f, id)
    ensures CaptionPrefix(t[i..e])
  {
    CaptionEndSlice(t, i, f, e);
    StartsAtSlice(t, i, e, i, FIGURE_OPEN);
    assert 0 <= f - i < |t[i..e]|;
  }

  /** add_labels_to_figures inserts at the end of the figure match, right
      after its `<figcaption>` or its `<figcaption>`, whitespace and `<p>`:
      nothing of the match follows the insertion. */
  lemma FigureInsertionPlace(t: string, labels: map<string, string>, h: string -> string)
    ensures forall piece :: piece in Pieces(FigureCaption, t, labels, h) && piece.Replaced? ==>
      piece.post == "" && CaptionPrefix(piece.pre)
  {
    PiecesFacts(FigureCaption, t, labels, h);
  }

  /** set_reference_labels rewrites only empty links: every match is
      `<a href="#id">` followed directly by `</a>`, and the insertion goes
      between the two tags. */
  lemma LinkInsertionPlace(t: string, labels: map<string, string>, h: string -> string)
    ensures forall piece :: piece in Pieces(EmptyLink, t, labels, h) && piece.Replaced? ==>
      piece.pre == LINK_OPEN + piece.id + "\">" && piece.post == LINK_CLOSE
  {
    PiecesFacts(EmptyLink, t, labels, h);
  }

  // ------------------------------------------------------ written matches

  /** A stretch of text in which no match starts is copied as it is, in
      front of the rewrite of what follows it. */
  lemma {:induction false} KeptPrefix(p: Pattern, a: string, s: string,
                                      labels: map<string, string>, h: string -> string)
    requires Rewriter(p)
    requires forall k :: 0 <= k < |a| ==> RewriteAt(p, (a + s)[k..]) == None
    ensures Rewrite(p, a + s, labels, h) == a + Rewrite(p, s, labels, h)
    decreases |a|
  {
    var r := Rewrite(p, s, labels, h);
    if a == [] {
      assert a + s == s && a + r == r;
    } else {
      assert (a + s)[0..] == a + s;
      KeptHead(p, a, s, labels, h);
      KeptTail(p, a, s);
      KeptPrefix(p, a[1..], s, labels, h);
      AppendAssociative([a[0]], a[1..], r);
      assert [a[0]] + a[1..] == a;
    }
  }

  /** The first character of such a stretch is kept. */
  lemma KeptHead(p: Pattern, a: string, s: string, labels: map<string, string>, h: string -> string)
    requires Rewriter(p) && a != [] && RewriteAt(p, a + s) == None
    ensures Rewrite(p, a + s, labels, h) == [a[0]] + Rewrite(p, a[1..] + s, labels, h)
  {
    DropFirst(a, s);
    KeptStep(p, a + s, labels, h);
  }

  lemma DropFirst(a: string, s: string)
    requires a != []
    ensures (a + s)[0] == a[0] && (a + s)[1..] == a[1..] + s
  {
  }

  /** No match starts in the rest of it either. */
  lemma KeptTail(p: Pattern, a: string, s: string)
    requires Rewriter(p) && a != []
    requires forall k :: 0 <= k < |a| ==> RewriteAt(p, (a + s)[k..]) == None
    ensures forall k :: 0 <= k < |a[1..]| ==> RewriteAt(p, (a[1..] + s)[k..]) == None
  {
    forall k | 0 <= k < |a[1..]| ensures RewriteAt(p, (a[1..] + s)[k..]) == None {
      assert (a[1..] + s)[k..] == (a + s)[k + 1..];
    }
  }

  /** No link starts inside a stretch without `"` that a tag follows: the
      `"` of `<a href="#` would have to lie in the stretch, and the tag's
      `<` cannot stand in for any later character of it. */
  lemma NoLinkInside(a: string, x: string, k: nat)
    requires '"' !in a && k < |a| && x != [] && x[0] == '<'
    ensures LinkAt((a + x)[k..], 0) == None
  {
    var s := (a + x)[k..];
    assert LINK_OPEN == ['<', 'a', ' ', 'h', 'r', 'e', 'f', '=', '"', '#'];
    var m := if k + 8 < |a| then 8 else |a| - k;
    if k + 8 < |a| {
      assert s[m] == a[k + 8];
    } else {
      assert s[m] == x[0];
    }
    NotStartsAt(s, 0, LINK_OPEN, m);
  }

  /** No figure starts inside a stretch without `<`. */
  lemma NoFigureInside(a: string, x: string, k: nat)
    requires '<' !in a && k < |a|
    ensures FigureAt((a + x)[k..], 0) == None
  {
    var s := (a + x)[k..];
    assert s[0] == a[k];
    NotStartsAt(s, 0, FIGURE_OPEN, 0);
  }

  /** An empty link at the start of the text is written with the escaped
      label of its id between its two tags, or as it is when the id has no
      label. */
  lemma LinkFirst(id: string, b: string, x: string, n: nat, labels: map<string, string>, h: string -> string)
    requires id != [] && NoQuote(id) && x == EmptyLinkText(id) + b && n == |EmptyLinkText(id)|
    ensures Rewrite(EmptyLink, x, labels, h)
         == LINK_OPEN + id + "\">" + (if id in labels then h(labels[id]) else "") + LINK_CLOSE
            + Rewrite(EmptyLink, b, labels, h)
  {
    assert x[0..n] == EmptyLinkText(id);
    EmptyLinkMatch(x, 0, id);
    var hit := Hit(n, [LINK_OPEN + id + "\">", id, LINK_CLOSE]);
    MatchedStep(EmptyLink, x, hit, labels, h);
    assert x[n..] == b;
  }

  /** set_reference_labels on an empty link written after text without
      `"`: the text is kept, and the link receives the escaped label of its
      id, or stays as it is when the id has no label. */
  lemma LinkFilledIn(a: string, id: string, b: string, labels: map<string, string>, h: string -> string)
    requires id != [] && NoQuote(id) && '"' !in a
    ensures Rewrite(EmptyLink, a + EmptyLinkText(id) + b, labels, h)
         == a + (LINK_OPEN + id + "\">" + (if id in labels then h(labels[id]) else "") + LINK_CLOSE
                 + Rewrite(EmptyLink, b, labels, h))
  {
    var x := EmptyLinkText(id) + b;
    assert x[0] == '<';
    forall k | 0 <= k < |a| ensures RewriteAt(EmptyLink, (a + x)[k..]) == None {
      NoLinkInside(a, x, k);
    }
    KeptPrefix(EmptyLink, a, x, labels, h);
    LinkFirst(id, b, x, |EmptyLinkText(id)|, labels, h);
    AppendAssociative(a, EmptyLinkText(id), b);
  }

  /** A figure at the start of the text is written with the label span of
      its id after the matched `<p>`, or as it is when the id has no
      label. */
  lemma FigureFirst(id: string, gap: string, b: string, x: string, n: nat,
                    labels: map<string, string>, h: string -> string)
    requires PlainId(id) && AllIn(Space, gap) && x == FigureText(id, gap) + b && n == |FigureText(id, gap)|
    ensures Rewrite(FigureCaption, x, labels, h)
         == FigureText(id, gap) + (if id in labels then SPAN_OPEN + h(labels[id]) + SPAN_CLOSE else "")
            + Rewrite(FigureCaption, b, labels, h)
  {
    assert x[0..n] == FigureText(id, gap);
    FigureMatch(x, 0, n, id, gap);
    MatchedStep(FigureCaption, x, Hit(n, [id]), labels, h);
    assert x[..n] == FigureText(id, gap) && x[n..] == b;
  }

  /** add_labels_to_figures on a figure written after text without `<`:
      the text is kept, and the label span of the figure's id goes right
      after the `<p>` that opens its caption, or nothing is inserted when
      the id has no label. */
  lemma FigureFilledIn(a: string, id: string, gap: string, b: string,
                       labels: map<string, string>, h: string -> string)
    requires PlainId(id) && AllIn(Space, gap) && '<' !in a
    ensures Rewrite(FigureCaption, a + FigureText(id, gap) + b, labels, h)
         == a + (FigureText(id, gap) + (if id in labels then SPAN_OPEN + h(labels[id]) + SPAN_CLOSE else "")
                 + Rewrite(FigureCaption, b, labels, h))
  {
    var x := FigureText(id, gap) + b;
    forall k | 0 <= k < |a| ensures RewriteAt(FigureCaption, (a + x)[k..]) == None {
      NoFigureInside(a, x, k);
    }
    KeptPrefix(FigureCaption, a, x, labels, h);
    FigureFirst(id, gap, b, x, |FigureText(id, gap)|, labels, h);
    AppendAssociative(a, FigureText(id, gap), b);
  }

  /** add_labels_to_figures on `<figure id="a"></figure><figure id="b"><figcaption>`:
      the label of `a` goes after the caption of the second figure, and `b`
      receives no label, whatever the labels are. */
  lemma CaptionlessLabel(t: string, labels: map<string, string>, h: string -> string)
    requires CaptionlessText(t)
    ensures Rewrite(FigureCaption, t, labels, h)
         == t + (if "a" in labels then SPAN_OPEN + h(labels["a"]) + SPAN_CLOSE else "")
  {
    CaptionlessParts(t);
    CaptionlessFigure(t);
    MatchedStep(FigureCaption, t, Hit(51, ["a"]), labels, h);
    assert t[..51] == t && t[51..] == [];
  }
}

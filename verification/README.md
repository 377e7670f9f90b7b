# Cross-reference labels of the markup filter

`MarkupFilter` (lib/markupfilter.rb) is a Nanoc filter that post-processes
the HTML of an article. This project models its labelling stages:

- **create_labels** scans the document for opening tags that carry an `id`.
  It classifies each one with **label_type_for**: `h2` gives `Section`, and
  `figure` gives `Listing` when **parse_attributes** finds `class="listing"`,
  or `Fig.` otherwise. Every other tag gives `Unknown`. Each element is
  numbered with a running counter per kind, so its label is "Kind N". The
  result is a map from id to label.
- **add_labels_to_figures** puts `<span class="label">Label:</span> ` right
  after the first `<figcaption>` that follows the id of a lower-case
  `<figure` tag whose id has a label, or after the whitespace and `<p>`
  that follow that `<figcaption>`. The search for the caption does not
  stop at `</figure>`: in `<figure id="a"></figure><figure id="b"><figcaption>`
  the label of `a` goes into the caption of `b`, and `b` gets none
  (`Rewriting.CaptionlessLabel`). The tag name is matched case-sensitively,
  so a `<FIGURE id="x">` is numbered as a `Fig.` by create_labels, which
  lower-cases tag names, but never receives a label span
  (`Patterns.UpperCaseFigure`).
- **set_reference_labels** fills every empty link `<a href="#id"></a>`
  whose id has a label with that label as its text.

All four regular expressions are modelled concretely, over `seq<char>`,
as deterministic matchers (module `Patterns`). At a given start position
each matcher returns the match that Ruby's backtracking engine reports:
the first success in the engine's order of preference.

- A greedy `\w+`, `\s*` or `[^"]+` is tried longest first. In these
  patterns a shorter run never lets the rest succeed where the longest
  run failed, so the matcher takes the whole run.
- `[^>]*\s+id="` is tried with the longest `[^>]*` first, so the matcher
  tries the whitespace before the first `>` from the last one backwards
  and takes the first from which the rest of the expression matches.
- The lazy `.*?<figcaption>` stops at the first `<figcaption>`.
- The optional `(?:\s*<p>)?` is taken when whitespace and `<p>` follow.

`String#scan` (`Patterns.ScanFrom`) and `gsub!` with a block
(`Rewriting.Pieces`, computed by the loop `Rewriting.Substitute`) are
written on top of these matchers. `gsub!` cuts the document into pieces:

- characters outside any match are kept;
- a match is split into the text before the insertion point, the
  insertion, and the text after it.

`Array#to_h` is `Text.ToMap`. It enters the pairs in order, so a later
pair with the same key overwrites an earlier one.

The escaping helper `h` is a parameter `h: string -> string` and stays
abstract: nothing is assumed about it.

Modules:

- `Text`: character classes, searches, `downcase`, `to_h`, `Integer#to_s`.
- `Patterns`: the four matchers and `scan`.
- `Attributes`: parse_attributes.
- `Labels`: label_type_for and create_labels. The method `CreateLabels`
  runs the `map` loop with its mutable `reference_counts` and is proved
  equal to the function `Labels`.
- `Rewriting`: `gsub!` and the two rewriting stages.
- `Filter`: the document buffer that the stages rewrite in place, and
  lines 9-11 of `run`.

Duplicate ids: `to_h` keeps the label of the last element with a given
id, and both elements advance the counter of their kind
(`Labels.LastDuplicateWins`).

## Model

| member | source | states |
|---|---|---|
| Text.Span | lib/markupfilter.rb:95 | a greedy `\s*` or `\w+` run from a position: every character up to the result is in the class and the one at the result is not (or the text ends) |
| Text.FindChar | lib/markupfilter.rb:44 | a greedy `[^"]+`/`[^>]*` stops at the first occurrence of the character at or after the start, or at the end |
| Text.FindLit | lib/markupfilter.rb:73 | the lazy `.*?<figcaption>` settles on the first occurrence of the literal; `None` exactly when there is none |
| Text.ToMap | lib/markupfilter.rb:51 | `to_h`: the keys of the map are exactly the first components of the pairs |
| Text.ToMapSnoc | lib/markupfilter.rb:51 | `to_h` of one more pair is the map so far with that pair entered |
| Text.ToMapLastWins | lib/markupfilter.rb:51 | `to_h` maps a key to the value of the last pair with that key |
| Text.ToMapValueFrom | lib/markupfilter.rb:97 | every value in the `to_h` map comes from a pair with its key |
| Text.NatToString | lib/markupfilter.rb:49 | `#{number}` is a non-empty string of decimal digits without a leading zero |
| Text.DecimalRoundTrip | lib/markupfilter.rb:49 | reading the digits of `#{number}` back gives the number |
| Text.LowerIdempotent | lib/markupfilter.rb:96 | a name `downcase` produced is its own lower case |
| Patterns.TagAt | lib/markupfilter.rb:44 | a match of the opening-tag pattern starts with `<` and a word-character tag name that a non-word character ends; the captured attribute list is exactly the text from there to the `>` that ends the match; the id is the non-empty, `"`-free value of an `id="…"` that follows whitespace inside it; no `>` occurs before that whitespace or after the id's closing quote, but the id value itself may contain `>` |
| Patterns.OpeningTagMatch | lib/markupfilter.rb:44 | an opening tag `<name attrs id="id">` (word-character name, attributes without `>` that do not continue the name, an id without `"`, `>` or whitespace) is matched as a whole, capturing the name, ` attrs id="id"` and the id |
| Patterns.ScanElements | lib/markupfilter.rb:44 | from any position, the scan of a text made of such tags, each after text without `<`, reports the groups of every tag in order and nothing else |
| Patterns.ScanDocument | lib/markupfilter.rb:44 | the same for the whole document: `scan` returns exactly the groups of its tags |
| Patterns.AttributeAt | lib/markupfilter.rb:95 | a match of the attribute pattern captures a word-character name and a non-empty value without `"` |
| Patterns.FigureAt | lib/markupfilter.rb:73 | a figure match starts with `<figure`; its id is the non-empty, `"`-free value of an `id="…"` that follows whitespace, with no `>` between `<figure` and that whitespace; the match runs to the first `<figcaption>` after the attribute and ends right after it, or after the whitespace and `<p>` that follow it when they are there (and then only) |
| Patterns.CaptionlessFigure | lib/markupfilter.rb:73 | on `<figure id="a"></figure><figure id="b"><figcaption>` the match starts at the first figure, captures `a` and runs past `</figure>` to the end of the second figure's `<figcaption>` |
| Patterns.UpperCaseFigure | lib/markupfilter.rb:73 | the figure pattern never matches at an upper-case `<FIGURE` |
| Patterns.FigureMatch | lib/markupfilter.rb:73 | `<figure id="id"><figcaption>`, whitespace and `<p>` is matched as a whole, capturing the id |
| Patterns.FigureExample | lib/markupfilter.rb:73 | on `<figure id="f"><figcaption> <p>X` the match captures `f` and ends after the `<p>`, at 31 |
| Patterns.LinkAt | lib/markupfilter.rb:84 | an empty-link match captures `<a href="#id">`, the non-empty id and `</a>`, and `$1` followed by `$3` is exactly the matched text |
| Patterns.EmptyLinkMatch | lib/markupfilter.rb:84 | `<a href="#id"></a>` with a non-empty id without `"` is matched as a whole, whatever follows, with groups `<a href="#id">`, `id` and `</a>` |
| Patterns.Scan | lib/markupfilter.rb:44 | `scan` from the start of the text: every group tuple it returns has the shape its pattern captures |
| Patterns.ScanFrom | lib/markupfilter.rb:44 | every group tuple `scan` returns has the shape its pattern captures |
| Patterns.ScanHit | lib/markupfilter.rb:95 | after a match, `scan` reports its groups and resumes where the match ended |
| Attributes.ParseAttributes | lib/markupfilter.rb:94-98 | defined by its body: the pairs the attribute scan finds, with lower-cased names, entered in order into a map by `to_h`; its properties are the rows below |
| Attributes.ParsedKeys | lib/markupfilter.rb:94-98 | a name is a key of parse_attributes exactly when the scan found it, up to letter case |
| Attributes.ParsedEntry | lib/markupfilter.rb:95-97 | every key is a non-empty lower-case word-character name bound to a non-empty value without `"` |
| Attributes.LaterAttributeWins | lib/markupfilter.rb:97 | for a name given more than once, the value of its last occurrence is kept |
| Attributes.ParseRendered | lib/markupfilter.rb:94-98 | an attribute list written as whitespace, then `name="value"` pairs each followed by any whitespace or none, parses to `to_h` of the pairs with lower-cased names: the scan recovers every written pair |
| Attributes.UnquotedIgnored | lib/markupfilter.rb:95 | a list without `"` parses to the empty map: values in single quotes or without quotes are not read |
| Attributes.SingleQuotedIgnored | lib/markupfilter.rb:95 | the scan of ` class='listing'` finds nothing, and neither ` class='listing'` nor ` class=listing` gives a class |
| Attributes.EmptyValueIgnored | lib/markupfilter.rb:95 | `name=""` gives no entry, because `[^"]+` needs at least one character |
| Labels.LabelTypeFor | lib/markupfilter.rb:55-68 | defined by its body: `h2` gives Section, `figure` gives Listing when the parsed attributes map `class` to `listing` and Fig. otherwise, every other tag Unknown; its properties are the rows below |
| Labels.ClassifiedByTag | lib/markupfilter.rb:55-68 | the kind is Section exactly for `h2`, Listing or Fig. exactly for `figure`, Unknown exactly for every other tag, whatever the attributes |
| Labels.FigureClassification | lib/markupfilter.rb:59-65 | a figure whose attributes are written as pairs is a Listing exactly when the last `class` pair, in any letter case, has the value `listing`, and Fig. otherwise |
| Labels.HeadingIsSection | lib/markupfilter.rb:46-58 | `h2` and `H2` both give Section once the tag is lower-cased |
| Labels.PlainFigure | lib/markupfilter.rb:63-64 | a figure with only an id is a Fig. |
| Labels.ListingFigure | lib/markupfilter.rb:60-62 | a figure with `class="listing"` is a Listing |
| Labels.LabelTextInjective | lib/markupfilter.rb:49 | two label texts "Kind N" are equal only for the same kind and number |
| Labels.Labels | lib/markupfilter.rb:42-52 | defined by its body: `to_h` of the numbered (id, label) pairs of the scanned tags; its properties are the rows below and `Labels.CreateLabels` computes it |
| Labels.CreateLabels | lib/markupfilter.rb:42-52 | the method returns exactly the label map `Labels` of the document |
| Labels.NumberMatches | lib/markupfilter.rb:43-51 | the counting loop builds `to_h` of the (id, "Kind N") pairs, with N the running count of the element's kind |
| Labels.NumberNext | lib/markupfilter.rb:46-49 | one iteration keeps every counter equal to the number of elements of its kind seen so far and appends the next pair |
| Labels.NumberBounds | lib/markupfilter.rb:47 | every number is between 1 and the number of elements of its kind |
| Labels.NumbersIncrease | lib/markupfilter.rb:47-48 | within one kind the numbers strictly increase in document order |
| Labels.NumbersWithoutGaps | lib/markupfilter.rb:47-48 | every number from 1 to the count of a kind goes to an element of that kind |
| Labels.CountersIndependent | lib/markupfilter.rb:48 | a kind's count depends only on where the elements of that kind are |
| Labels.LabelKeys | lib/markupfilter.rb:44-51 | an id has a label exactly when the scan found an element with that id |
| Labels.LabelForm | lib/markupfilter.rb:49 | every label is "Kind N" with N at least 1 |
| Labels.LastDuplicateWins | lib/markupfilter.rb:51 | an id's label is the one its last occurrence received |
| Labels.MixedKinds | lib/markupfilter.rb:45-49 | four elements of the kinds Section, Fig., Section, Listing are labelled Section 1, Fig. 1, Section 2, Listing 1 |
| Labels.MixedScan | lib/markupfilter.rb:44 | the scan of `<h2 id="s1">Intro <figure id="f1">Text <H2 id="s2">More <figure class="listing" id="l1">` finds its four tags with their names, attribute lists and ids |
| Labels.MixedKindsOf | lib/markupfilter.rb:46 | label_type_for classifies those four tags as Section, Fig., Section, Listing |
| Labels.MixedPairs | lib/markupfilter.rb:45-50 | the `map` block turns them into (s1, Section 1), (f1, Fig. 1), (s2, Section 2), (l1, Listing 1) |
| Labels.MixedLabels | lib/markupfilter.rb:42-52 | create_labels of that document is the map s1 to Section 1, f1 to Fig. 1, s2 to Section 2, l1 to Listing 1 |
| Rewriting.Pieces | lib/markupfilter.rb:72-91 | defined by its body: `gsub!` walks the document, replacing a match at the current position and going on after it, or keeping one character; its properties are `Rewriting.InsertionOnly` and `Rewriting.PiecesFacts` |
| Rewriting.Rewrite | lib/markupfilter.rb:72-91 | defined by its body: the text the pieces are written as, which `Rewriting.Substitute` computes |
| Rewriting.Replacement | lib/markupfilter.rb:74-78 | the replacement of a match, without its insertion, is the matched text |
| Rewriting.NextPiece | lib/markupfilter.rb:73 | one step of `gsub!` moves forward and writes its piece in front of the rest |
| Rewriting.Substitute | lib/markupfilter.rb:72-91 | the `gsub!` loop produces exactly the rewritten document `Rewrite` |
| Rewriting.InsertionOnly | lib/markupfilter.rb:73-79 | the rewriting only inserts: removing the insertions gives back the document |
| Rewriting.PiecesFacts | lib/markupfilter.rb:72-91 | every match piece gets the right insertion at the right place: see the three rows below |
| Rewriting.InsertionsAreLabels | lib/markupfilter.rb:85-89 | a match receives the wrapped, escaped label of its id when the id has a label, and nothing otherwise |
| Rewriting.FigureInsertionPlace | lib/markupfilter.rb:73-75 | a figure label goes right after the matched `<figcaption>` or `<p>`, at the end of the match |
| Rewriting.LinkInsertionPlace | lib/markupfilter.rb:84-86 | only empty links `<a href="#id"></a>` are rewritten, and the label goes between the two tags |
| Rewriting.KeptPrefix | lib/markupfilter.rb:73 | text at none of whose positions the pattern matches is copied unchanged in front of the rewrite of what follows it |
| Rewriting.LinkFilledIn | lib/markupfilter.rb:83-91 | text without `"` followed by `<a href="#id"></a>` and more: the text is kept, the link becomes `<a href="#id">` + `h(label)` + `</a>` when the id has a label and stays as it is otherwise, and the rewriting goes on after it |
| Rewriting.FigureFilledIn | lib/markupfilter.rb:72-80 | text without `<` followed by `<figure id="id"><figcaption>`, whitespace, `<p>` and more: the text and the figure are kept, the label span `<span class="label">h(label):</span> ` goes right after the `<p>` when the id has a label and nothing otherwise, and the rewriting goes on after it |
| Rewriting.CaptionlessLabel | lib/markupfilter.rb:72-80 | on `<figure id="a"></figure><figure id="b"><figcaption>` the label span of `a` is appended after the second figure's caption, and `b` receives nothing, whatever the labels |
| Rewriting.UnknownIdsUnchanged | lib/markupfilter.rb:76-78 | if no match the pattern finds at any position of the document has an id with a label, the document comes out unchanged |
| Rewriting.NoLabelsUnchanged | lib/markupfilter.rb:87-89 | with an empty label map every document comes out unchanged |
| Filter.Labelled | lib/markupfilter.rb:9-11 | defined by its body: the labels of the document, then the figure rewrite, then the link rewrite with the same labels |
| Filter.UnlabelledUnchanged | lib/markupfilter.rb:9-11 | a document with no labelled tag passes through the labelling stages unchanged |
| Filter.Document.constructor | lib/markupfilter.rb:5 | the buffer starts as the document |
| Filter.Document.AddLabelsToFigures | lib/markupfilter.rb:72-80 | the buffer is replaced in place by its figure-labelled rewrite |
| Filter.Document.SetReferenceLabels | lib/markupfilter.rb:83-91 | the buffer is replaced in place by its link-filled rewrite |
| Filter.Document.Label | lib/markupfilter.rb:9-11 | the labels are those of the document before either rewrite, and the buffer ends as both rewrites applied in turn |

## Left out

- include_code_blocks (lib/markupfilter.rb:33-39): it reads other items
  of the site, so it depends on the Nanoc item store, which is not part of
  this model. The labelling stages take the document as it is after this
  stage.
- move_references_to_main (lib/markupfilter.rb:20-24) and
  move_heading_ids_to_section (lib/markupfilter.rb:27-30) run after
  labelling and have no effect on it, so they are not modelled.
- `run`: only its labelling lines 9-11 are modelled (`Filter.Document.Label`).
  The copy on line 5 is the `Document` constructor. The filter
  registration and `params` are Nanoc plumbing.
- `h`: the HTML escaping helper is a parameter. Its behaviour is not
  modelled, and no property of it is used.
- The Ruby regular-expression engine in general: only the four patterns
  of the file are modelled, as direct matchers. Ruby's `\s` (space, tab,
  line feed, vertical tab, form feed, carriage return) and ASCII `\w` are
  written out.
- `downcase`: only ASCII case mapping is modelled. The strings it is
  applied to are `\w+` captures, which are ASCII, so nothing is lost.
- `to_sym`: symbols are modelled as the strings they are made from. Tag
  names are compared after `downcase`, and attribute names are the keys of
  the parsed map.
- Attributes.ParseRendered: the written form it covers has no whitespace
  around `=`. The matcher itself accepts such whitespace; the lemma does
  not speak about those lists.
- Patterns.ScanDocument: the text before each tag has no `<`, so closing
  tags and tags without an id between the elements are not covered by the
  lemma. `Patterns.TagAt` and `Patterns.ScanFrom` still model them.
- Patterns.FigureMatch: it covers a figure whose only attribute is its id
  and whose caption opens with whitespace and `<p>`. Other figures are
  covered by the contract of `Patterns.FigureAt` only.
- Rewriting.LinkFilledIn: the text before the link has no `"`, which
  rules out a link that starts in that text. Other texts are covered by
  `Rewriting.KeptPrefix` and `Rewriting.InsertionsAreLabels` only.
- Rewriting.FigureFilledIn: the text before the figure has no `<`, which
  rules out a figure that starts in that text. Other texts are covered by
  `Rewriting.KeptPrefix` and `Rewriting.FigureInsertionPlace` only.

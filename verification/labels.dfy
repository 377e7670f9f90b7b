/** create_labels and label_type_for (lib/markupfilter.rb:42-68): every
    opening tag that carries an `id` gets the label "<Kind> <n>", where the
    kind comes from the tag name and, for figures, the `class` attribute, and
    `n` counts the tags of that kind seen so far in document order. */
module Labels {
  import opened Text
  import opened Patterns
  import opened Attributes

  /** The four label types, in the order of the classification table. */
  datatype Kind = Section | Listing | Figure | Unknown

  /** The word a label of this kind starts with. */
  function Name(k: Kind): (s: string)
    ensures s != [] && ' ' !in s
  {
    match k
    case Section => "Section"
    case Listing => "Listing"
    case Figure => "Fig."
    case Unknown => "Unknown"
  }

  /** The classification of an element from its tag name, already lower-cased,
      and the text of its attribute list. */
  function LabelTypeFor(tag: string, attributeList: string): (k: Kind) {
    if tag == "h2" then Section
    else if tag == "figure" then
      var attributes := ParseAttributes(attributeList);
      if "class" in attributes && attributes["class"] == "listing" then Listing else Figure
    else Unknown
  }

  /** The label text "<Kind> <n>". */
  function LabelText(k: Kind, n: nat): string {
    Name(k) + " " + NatToString(n)
  }

  // ------------------------------------------------------------ classification

  /** A figure whose attribute list is written as `name="value"` pairs is a
      listing exactly when the last `class` pair, in any letter case, has the
      value `listing`; with no such pair it is a figure. */
  lemma FigureClassification(w: string, ps: seq<(string, string)>, gaps: seq<string>)
    requires AllIn(Space, w) && Writable(ps) && |gaps| == |ps| && Blank(gaps)
    ensures var attributes, kind := ToMap(Lowered(ps)), LabelTypeFor("figure", w + Render(ps, gaps));
      kind == Listing <==> "class" in attributes && attributes["class"] == "listing"
    ensures var kind := LabelTypeFor("figure", w + Render(ps, gaps)); kind != Listing ==> kind == Figure
  {
    ParseRendered(w, ps, gaps);
  }

  /** The tag name alone decides every kind but the choice between listing
      and figure, whatever the attribute list holds. */
  lemma ClassifiedByTag(tag: string, attributeList: string)
    ensures LabelTypeFor(tag, attributeList) == Section <==> tag == "h2"
    ensures LabelTypeFor(tag, attributeList) in {Listing, Figure} <==> tag == "figure"
    ensures LabelTypeFor(tag, attributeList) == Unknown <==> tag != "h2" && tag != "figure"
  {
  }

  // ---------------------------------------------------------------- label text

  lemma NoSpaceInDigits(n: nat)
    ensures ' ' !in NatToString(n)
  {
  }

  lemma FirstSpace(a: string, d: string)
    requires ' ' !in a
    ensures (a + " " + d)[|a|] == ' '
    ensures forall i :: 0 <= i < |a| ==> (a + " " + d)[i] != ' '
  {
    forall i | 0 <= i < |a| ensures (a + " " + d)[i] != ' ' {
      assert (a + " " + d)[i] == a[i];
    }
  }

  /** Text without a space, a space, and more text: the first space tells
      where the two parts meet. */
  lemma SplitAtSpace(a1: string, d1: string, a2: string, d2: string)
    requires ' ' !in a1 && ' ' !in a2 && a1 + " " + d1 == a2 + " " + d2
    ensures a1 == a2 && d1 == d2
  {
    var s := a1 + " " + d1;
    FirstSpace(a1, d1);
    FirstSpace(a2, d2);
    assert s[|a1|] == ' ' && s[|a2|] == ' ';
    assert a1 == s[..|a1|] && a2 == s[..|a2|];
    assert d1 == s[|a1| + 1..] && d2 == s[|a2| + 1..];
  }

  /** Two labels are equal only when they have the same kind and number: the
      text before the single space names the kind and the digits after it
      read back as the number. */
  lemma {:induction false} LabelTextInjective(k1: Kind, n1: nat, k2: Kind, n2: nat)
    requires LabelText(k1, n1) == LabelText(k2, n2)
    ensures k1 == k2 && n1 == n2
  {
    NoSpaceInDigits(n1);
    SplitAtSpace(Name(k1), NatToString(n1), Name(k2), NatToString(n2));
    DecimalRoundTrip(n1);
    DecimalRoundTrip(n2);
  }

  // ------------------------------------------------------------- the scan

  /** One match of the opening-tag pattern: the tag name as written, the
      attribute list (from after the name up to the closing `>`) and the id. */
  datatype TagMatch = TagMatch(tag: string, attributeList: string, id: string)

  function ToMatches(gs: seq<seq<string>>): (ms: seq<TagMatch>)
    requires forall i :: 0 <= i < |gs| ==> Captures(OpeningTag, gs[i])
    ensures |ms| == |gs|
    ensures forall i :: 0 <= i < |gs| ==> |gs[i]| == 3 && ms[i] == TagMatch(gs[i][0], gs[i][1], gs[i][2])
  {
    assert forall i :: 0 <= i < |gs| ==> |gs[i]| == 3 by {
      forall i | 0 <= i < |gs| ensures |gs[i]| == 3 { assert Captures(OpeningTag, gs[i]); }
    }
    seq(|gs|, i requires 0 <= i < |gs| =>
      assert Captures(OpeningTag, gs[i]); TagMatch(gs[i][0], gs[i][1], gs[i][2]))
  }

  /** Every opening tag with an `id`, in document order. */
  function TagMatches(content: string): seq<TagMatch> {
    ToMatches(Scan(OpeningTag, content))
  }

  // ------------------------------------------------------------- numbering

  /** The kind of every match, in order. */
  function KindsOf(ms: seq<TagMatch>): (ks: seq<Kind>)
    ensures |ks| == |ms|
    ensures forall i :: 0 <= i < |ms| ==> ks[i] == LabelTypeFor(Lower(ms[i].tag), ms[i].attributeList)
  {
    seq(|ms|, i requires 0 <= i < |ms| => LabelTypeFor(Lower(ms[i].tag), ms[i].attributeList))
  }

  /** How many times `k` occurs in `ks`. */
  function Count(ks: seq<Kind>, k: Kind): (n: nat)
    ensures n <= |ks|
    decreases |ks|
  {
    if ks == [] then 0
    else Count(ks[..|ks| - 1], k) + (if ks[|ks| - 1] == k then 1 else 0)
  }

  /** The number the `i`-th element receives: one more than the elements of
      its kind before it. */
  function NumberAt(ks: seq<Kind>, i: nat): nat
    requires i < |ks|
  {
    Count(ks[..i + 1], ks[i])
  }

  /** The ids of the matches paired with the labels their kinds `ks` give
      them. */
  function Numbered(ms: seq<TagMatch>, ks: seq<Kind>): (ps: seq<(string, string)>)
    requires |ks| == |ms|
    ensures |ps| == |ms|
  {
    seq(|ms|, i requires 0 <= i < |ms| => (ms[i].id, LabelText(ks[i], NumberAt(ks, i))))
  }

  /** The (id, label) pairs in document order. */
  function LabelPairs(ms: seq<TagMatch>): (ps: seq<(string, string)>)
    ensures |ps| == |ms|
  {
    Numbered(ms, KindsOf(ms))
  }

  /** What create_labels returns: `to_h` of the pairs. */
  function Labels(content: string): map<string, string> {
    ToMap(LabelPairs(TagMatches(content)))
  }

  /** The counter of a kind, 0 while the kind has not been seen. */
  function Counter(counts: map<Kind, nat>, k: Kind): nat {
    if k in counts then counts[k] else 0
  }

  lemma PrefixStep<T>(s: seq<T>, i: nat)
    requires i < |s|
    ensures s[..i + 1] == s[..i] + [s[i]] && s[..i + 1][..i] == s[..i]
  {
  }

  /** Taking the next number of the `i`-th kind keeps the counters equal to
      the counts of the kinds seen so far. */
  lemma CounterStep(ks: seq<Kind>, i: nat, counts: map<Kind, nat>, next: map<Kind, nat>)
    requires i < |ks|
    requires forall k :: Counter(counts, k) == Count(ks[..i], k)
    requires next == counts[ks[i] := Counter(counts, ks[i]) + 1]
    ensures Counter(counts, ks[i]) + 1 == NumberAt(ks, i)
    ensures forall k :: Counter(next, k) == Count(ks[..i + 1], k)
  {
    PrefixStep(ks, i);
  }

  lemma KindAt(ms: seq<TagMatch>, i: nat, kind: Kind)
    requires i < |ms| && kind == LabelTypeFor(Lower(ms[i].tag), ms[i].attributeList)
    ensures KindsOf(ms)[i] == kind
  {
  }

  /** The pairs up to the `i`-th match. */
  lemma PairStep(ms: seq<TagMatch>, i: nat)
    requires i < |ms|
    ensures var ks := KindsOf(ms);
      LabelPairs(ms)[..i + 1] == LabelPairs(ms)[..i] + [(ms[i].id, LabelText(ks[i], NumberAt(ks, i)))]
  {
    PrefixStep(LabelPairs(ms), i);
  }

  /** create_labels: every match found by the scan takes the next number of
      its kind from the running counters, and the (id, label) pairs go
      through `to_h`. */
  method CreateLabels(content: string) returns (labels: map<string, string>)
    ensures labels == Labels(content)
  {
    labels := NumberMatches(TagMatches(content));
  }

  /** The loop of create_labels over the matches: the counters map each kind
      to the last number handed out. */
  method NumberMatches(matches: seq<TagMatch>) returns (labels: map<string, string>)
    ensures labels == ToMap(LabelPairs(matches))
  {
    var referenceCounts: map<Kind, nat> := map[];
    var pairs: seq<(string, string)> := [];
    for i := 0 to |matches|
      invariant pairs == LabelPairs(matches)[..i]
      invariant forall k :: Counter(referenceCounts, k) == Count(KindsOf(matches)[..i], k)
    {
      referenceCounts, pairs := NumberNext(matches, i, referenceCounts, pairs);
    }
    assert LabelPairs(matches)[..|matches|] == LabelPairs(matches);
    labels := ToMap(pairs);
  }

  /** One iteration: the `i`-th match is classified, its kind's counter goes
      up by one and the match's id is paired with the label. */
  method NumberNext(matches: seq<TagMatch>, i: nat, referenceCounts: map<Kind, nat>,
                    pairs: seq<(string, string)>)
    returns (counts': map<Kind, nat>, pairs': seq<(string, string)>)
    requires i < |matches|
    requires pairs == LabelPairs(matches)[..i]
    requires forall k :: Counter(referenceCounts, k) == Count(KindsOf(matches)[..i], k)
    ensures pairs' == LabelPairs(matches)[..i + 1]
    ensures forall k :: Counter(counts', k) == Count(KindsOf(matches)[..i + 1], k)
  {
    var m := matches[i];
    var kind := LabelTypeFor(Lower(m.tag), m.attributeList);
    KindAt(matches, i, kind);
    var number: nat := Counter(referenceCounts, kind) + 1;
    CounterStep(KindsOf(matches), i, referenceCounts, referenceCounts[kind := number]);
    PairStep(matches, i);
    counts' := referenceCounts[kind := number];
    pairs' := pairs + [(m.id, LabelText(kind, number))];
  }

  // ------------------------------------------------------ numbering properties

  lemma {:induction false} CountPrefix(ks: seq<Kind>, i: nat, j: nat, k: Kind)
    requires i <= j <= |ks|
    ensures Count(ks[..i], k) <= Count(ks[..j], k)
    decreases j - i
  {
    if i < j {
      CountPrefix(ks, i, j - 1, k);
      assert ks[..j][..j - 1] == ks[..j - 1];
    }
  }

  /** Every number is at least 1 and at most the number of elements of its
      kind. */
  lemma NumberBounds(ks: seq<Kind>, i: nat)
    requires i < |ks|
    ensures 1 <= NumberAt(ks, i) <= Count(ks, ks[i])
  {
    assert ks[..i + 1][..i] == ks[..i];
    CountPrefix(ks, i + 1, |ks|, ks[i]);
    assert ks[..|ks|] == ks;
  }

  /** Within one kind the numbers grow strictly in document order; in
      particular two elements with the same id still get different numbers. */
  lemma NumbersIncrease(ks: seq<Kind>, i: nat, j: nat)
    requires i < j < |ks| && ks[i] == ks[j]
    ensures NumberAt(ks, i) < NumberAt(ks, j)
  {
    CountPrefix(ks, i + 1, j, ks[i]);
    assert ks[..j + 1][..j] == ks[..j];
  }

  /** Each number from 1 up to the count of a kind goes to some element of
      that kind: there are no gaps. */
  lemma {:induction false} NumbersWithoutGaps(ks: seq<Kind>, k: Kind, n: nat)
    requires 1 <= n <= Count(ks, k)
    ensures exists i :: 0 <= i < |ks| && ks[i] == k && NumberAt(ks, i) == n
    decreases |ks|
  {
    var last := |ks| - 1;
    var front := ks[..last];
    if n <= Count(front, k) {
      NumbersWithoutGaps(front, k, n);
      var i :| 0 <= i < |front| && front[i] == k && NumberAt(front, i) == n;
      assert ks[..i + 1] == front[..i + 1];
    } else {
      assert ks[last] == k && ks[..last + 1] == ks;
    }
  }

  /** The counters are independent: the number of an element depends only on
      where the elements of its own kind are, not on the other kinds. */
  lemma {:induction false} CountersIndependent(ks1: seq<Kind>, ks2: seq<Kind>, k: Kind)
    requires |ks1| == |ks2|
    requires forall i :: 0 <= i < |ks1| ==> (ks1[i] == k <==> ks2[i] == k)
    ensures Count(ks1, k) == Count(ks2, k)
    decreases |ks1|
  {
    if ks1 != [] {
      var last := |ks1| - 1;
      CountersIndependent(ks1[..last], ks2[..last], k);
    }
  }

  // -------------------------------------------------------- the label map

  /** The keys of the label map are exactly the ids the scan found. */
  lemma LabelKeys(content: string, id: string)
    ensures var ms := TagMatches(content);
      id in Labels(content) <==> exists i :: 0 <= i < |ms| && ms[i].id == id
  {
    var ms := TagMatches(content);
    var ps := LabelPairs(ms);
    assert forall i :: 0 <= i < |ps| ==> ps[i].0 == ms[i].id;
  }

  /** Every label in the map reads "<Kind> <n>" with `n` at least 1. */
  lemma LabelForm(content: string, id: string)
    requires id in Labels(content)
    ensures exists k: Kind, n: nat :: n >= 1 && Labels(content)[id] == LabelText(k, n)
  {
    var ms := TagMatches(content);
    var ks := KindsOf(ms);
    var ps := LabelPairs(ms);
    ToMapValueFrom(ps, id);
    var i :| 0 <= i < |ps| && ps[i].0 == id && ps[i].1 == ToMap(ps)[id];
    NumberBounds(ks, i);
    assert Labels(content)[id] == LabelText(ks[i], NumberAt(ks, i));
  }

  /** The label an id receives is the one of its LAST occurrence: a later
      element with the same id overwrites an earlier one's label, though
      both advanced their counters. */
  lemma LastDuplicateWins(content: string, i: nat)
    requires i < |TagMatches(content)|
    requires var ms := TagMatches(content);
      forall j :: i < j < |ms| ==> ms[j].id != ms[i].id
    ensures var ms := TagMatches(content);
      var ks := KindsOf(ms);
      ms[i].id in Labels(content) && Labels(content)[ms[i].id] == LabelText(ks[i], NumberAt(ks, i))
  {
    ToMapLastWins(LabelPairs(TagMatches(content)), i);
  }

  /** The counters of the kinds sequence [Section, Fig., Section, Listing]. */
  lemma MixedNumbers()
    ensures var ks := [Section, Figure, Section, Listing];
      NumberAt(ks, 0) == 1 && NumberAt(ks, 1) == 1 && NumberAt(ks, 2) == 2 && NumberAt(ks, 3) == 1
  {
    var ks := [Section, Figure, Section, Listing];
    assert ks[..1] == [Section] && ks[..2] == [Section, Figure];
    assert ks[..3] == [Section, Figure, Section] && ks[..4] == ks;
    assert Count([Section], Section) == 1;
    assert Count([Section, Figure], Section) == 1;
    assert Count([Section, Figure, Section], Section) == 2;
    assert Count([Section, Figure, Section], Listing) == 0;
  }

  lemma LowerExamples()
    ensures Lower("h2") == "h2" && Lower("H2") == "h2" && Lower("figure") == "figure"
    ensures Lower("class") == "class" && Lower("id") == "id"
  {
    assert Lower("H2")[0] == 'h';
  }

  /** A figure with only an id is a figure. */
  lemma PlainFigure()
    ensures LabelTypeFor("figure", " id=\"f1\"") == Figure
  {
    assert " id=\"f1\"" == " " + Render([("id", "f1")], [""]);
    FigureClassification(" ", [("id", "f1")], [""]);
    assert Lowered([("id", "f1")]) == [("id", "f1")] by {
      LowerExamples();
    }
  }

  /** A figure with `class="listing"` is a listing. */
  lemma ListingFigure()
    ensures LabelTypeFor("figure", " " + Render([("class", "listing"), ("id", "l1")], [" ", ""])) == Listing
  {
    var ps := [("class", "listing"), ("id", "l1")];
    FigureClassification(" ", ps, [" ", ""]);
    assert Lowered(ps) == ps by {
      LowerExamples();
    }
    assert ToMap(ps)["class"] == "listing" by {
      ToMapLastWins(ps, 0);
    }
  }

  /** An `h2` heading is a section in either letter case. */
  lemma HeadingIsSection(tag: string, attributeList: string)
    requires tag == "h2" || tag == "H2"
    ensures LabelTypeFor(Lower(tag), attributeList) == Section
  {
    LowerExamples();
  }

  lemma MixedTexts()
    ensures LabelText(Section, 1) == "Section 1" && LabelText(Figure, 1) == "Fig. 1"
    ensures LabelText(Section, 2) == "Section 2" && LabelText(Listing, 1) == "Listing 1"
  {
    assert NatToString(1) == "1" && NatToString(2) == "2";
  }

  /** Sections, figures, sections and listings are counted separately:
      four elements of the kinds Section, Fig., Section, Listing, in that
      order, are labelled Section 1, Fig. 1, Section 2 and Listing 1. The
      kinds are given here; `MixedKindsOf` derives them from the tags of a
      document. */
  lemma MixedKinds(ms: seq<TagMatch>)
    requires |ms| == 4
    ensures Numbered(ms, [Section, Figure, Section, Listing])
         == [(ms[0].id, "Section 1"), (ms[1].id, "Fig. 1"), (ms[2].id, "Section 2"), (ms[3].id, "Listing 1")]
  {
    MixedNumbers();
    MixedTexts();
  }

  // ------------------------------------------------------- a worked document

  const SECTION_S1 := Element("", "h2", "", "s1")
  const FIGURE_F1 := Element("Intro ", "figure", "", "f1")
  const SECTION_S2 := Element("Text ", "H2", "", "s2")
  const LISTING_L1 := Element("More ", "figure", " class=\"listing\"", "l1")

  /** `<h2 id="s1">Intro <figure id="f1">Text <H2 id="s2">More
      <figure class="listing" id="l1">`. */
  function MixedDocument(): seq<Element> {
    [SECTION_S1, FIGURE_F1, SECTION_S2, LISTING_L1]
  }

  /** The matches create_labels finds in it. */
  function MixedMatches(): seq<TagMatch> {
    [TagMatch("h2", " id=\"s1\"", "s1"), TagMatch("figure", " id=\"f1\"", "f1"),
     TagMatch("H2", " id=\"s2\"", "s2"), TagMatch("figure", " class=\"listing\" id=\"l1\"", "l1")]
  }

  lemma SectionS1Written()
    ensures WellWritten(SECTION_S1)
  {
  }

  lemma FigureF1Written()
    ensures WellWritten(FIGURE_F1)
  {
  }

  lemma SectionS2Written()
    ensures WellWritten(SECTION_S2)
  {
  }

  lemma ListingL1Written()
    ensures WellWritten(LISTING_L1)
  {
  }

  lemma MixedWellWritten()
    ensures forall k :: 0 <= k < |MixedDocument()| ==> WellWritten(MixedDocument()[k])
  {
    SectionS1Written();
    FigureF1Written();
    SectionS2Written();
    ListingL1Written();
  }

  lemma MixedGroups()
    ensures ElementGroups(MixedDocument())
         == [TagGroups(SECTION_S1), TagGroups(FIGURE_F1), TagGroups(SECTION_S2), TagGroups(LISTING_L1)]
  {
    assert MixedDocument() == [SECTION_S1] + ([FIGURE_F1] + ([SECTION_S2] + ([LISTING_L1] + [])));
    ElementGroupsCons(LISTING_L1, []);
    ElementGroupsCons(SECTION_S2, [LISTING_L1]);
    ElementGroupsCons(FIGURE_F1, [SECTION_S2, LISTING_L1]);
    ElementGroupsCons(SECTION_S1, [FIGURE_F1, SECTION_S2, LISTING_L1]);
  }

  lemma MixedTagGroups()
    ensures ToMatches([TagGroups(SECTION_S1), TagGroups(FIGURE_F1), TagGroups(SECTION_S2), TagGroups(LISTING_L1)])
         == MixedMatches()
  {
    assert AttributeListText("", "s1") == " id=\"s1\"";
    assert AttributeListText("", "f1") == " id=\"f1\"";
    assert AttributeListText("", "s2") == " id=\"s2\"";
    assert AttributeListText(" class=\"listing\"", "l1") == " class=\"listing\" id=\"l1\"";
  }

  /** The scan of the document finds the four tags, in order. */
  lemma MixedScan()
    ensures TagMatches(DocumentText(MixedDocument())) == MixedMatches()
  {
    var es := MixedDocument();
    MixedWellWritten();
    MixedGroups();
    ScanDocument(es, "", ElementGroups(es));
    assert DocumentText(es) + "" == DocumentText(es);
    MixedTagGroups();
  }

  lemma MixedListing(attributeList: string)
    requires attributeList == " class=\"listing\" id=\"l1\""
    ensures LabelTypeFor(Lower("figure"), attributeList) == Listing
  {
    assert attributeList == " " + Render([("class", "listing"), ("id", "l1")], [" ", ""]);
    LowerExamples();
    ListingFigure();
  }

  lemma MixedFigure(attributeList: string)
    requires attributeList == " id=\"f1\""
    ensures LabelTypeFor(Lower("figure"), attributeList) == Figure
  {
    LowerExamples();
    PlainFigure();
  }

  /** Their kinds: the two headings are sections whatever their letter
      case, the plain figure is a figure and the one with `class="listing"`
      is a listing. */
  lemma MixedKindsOf(ms: seq<TagMatch>)
    requires ms == MixedMatches()
    ensures KindsOf(ms) == [Section, Figure, Section, Listing]
  {
    HeadingIsSection(ms[0].tag, ms[0].attributeList);
    KindAt(ms, 0, Section);
    MixedFigure(ms[1].attributeList);
    KindAt(ms, 1, Figure);
    HeadingIsSection(ms[2].tag, ms[2].attributeList);
    KindAt(ms, 2, Section);
    MixedListing(ms[3].attributeList);
    KindAt(ms, 3, Listing);
    FourKinds(KindsOf(ms), Section, Figure, Section, Listing);
  }

  lemma FourKinds(ks: seq<Kind>, a: Kind, b: Kind, c: Kind, d: Kind)
    requires |ks| == 4 && ks[0] == a && ks[1] == b && ks[2] == c && ks[3] == d
    ensures ks == [a, b, c, d]
  {
  }

  /** The (id, label) pairs of the matches. */
  lemma MixedPairs(ms: seq<TagMatch>)
    requires ms == MixedMatches()
    ensures LabelPairs(ms) == [("s1", "Section 1"), ("f1", "Fig. 1"), ("s2", "Section 2"), ("l1", "Listing 1")]
  {
    MixedKindsOf(ms);
    MixedKinds(ms);
  }

  lemma MixedMap(ps: seq<(string, string)>)
    requires ps == [("s1", "Section 1"), ("f1", "Fig. 1"), ("s2", "Section 2"), ("l1", "Listing 1")]
    ensures ToMap(ps) == map["s1" := "Section 1", "f1" := "Fig. 1", "s2" := "Section 2", "l1" := "Listing 1"]
  {
    var p0, p1, p2, p3 := ps[0], ps[1], ps[2], ps[3];
    assert ps == [] + [p0] + [p1] + [p2] + [p3];
    ToMapSnoc([], p0);
    ToMapSnoc([p0], p1);
    ToMapSnoc([p0, p1], p2);
    ToMapSnoc([p0, p1, p2], p3);
    assert [] + [p0] == [p0] && [p0] + [p1] == [p0, p1] && [p0, p1] + [p2] == [p0, p1, p2];
  }

  /** create_labels on the document: the sections are numbered 1 and 2 and
      the figure and the listing are each number 1 of their kind. */
  lemma MixedLabels()
    ensures Labels(DocumentText(MixedDocument()))
         == map["s1" := "Section 1", "f1" := "Fig. 1", "s2" := "Section 2", "l1" := "Listing 1"]
  {
    MixedScan();
    MixedPairs(MixedMatches());
    MixedMap(LabelPairs(MixedMatches()));
  }
}

/** The labelling stages of `run` (lib/markupfilter.rb:9-11) over a document
    buffer that `gsub!` rewrites in place: labels are created from the
    document, then figure captions and then empty links receive them. */
module Filter {
  import Labels
  import opened Patterns
  import opened Rewriting

  /** The document after the three labelling stages, all three using the
      labels of the document as it was before them. */
  function Labelled(content: string, h: string -> string): string {
    var labels := Labels.Labels(content);
    Rewrite(EmptyLink, Rewrite(FigureCaption, content, labels, h), labels, h)
  }

  /** A document without any tag that would be labelled passes through the
      labelling stages unchanged. */
  lemma UnlabelledUnchanged(content: string, h: string -> string)
    requires Labels.Labels(content) == map[]
    ensures Labelled(content, h) == content
  {
    NoLabelsUnchanged(FigureCaption, content, h);
    NoLabelsUnchanged(EmptyLink, content, h);
  }

  /** The buffer the filter works on. */
  class Document {
    var content: string

    constructor (content: string)
      ensures this.content == content
    {
      this.content := content;
    }

    /** add_labels_to_figures: `gsub!` with the figure pattern. */
    method AddLabelsToFigures(labels: map<string, string>, h: string -> string)
      modifies this
      ensures content == Rewrite(FigureCaption, old(content), labels, h)
    {
      content := Substitute(FigureCaption, content, labels, h);
    }

    /** set_reference_labels: `gsub!` with the empty-link pattern. */
    method SetReferenceLabels(labels: map<string, string>, h: string -> string)
      modifies this
      ensures content == Rewrite(EmptyLink, old(content), labels, h)
    {
      content := Substitute(EmptyLink, content, labels, h);
    }

    /** Lines 9-11 of `run`: the labels are those of the document before
        either rewrite. */
    method Label(h: string -> string) returns (labels: map<string, string>)
      modifies this
      ensures labels == Labels.Labels(old(content))
      ensures content == Labelled(old(content), h)
    {
      labels := Labels.CreateLabels(content);
      AddLabelsToFigures(labels, h);
      SetReferenceLabels(labels, h);
    }
  }
}

/** The two enumerations of a code directory's files: `WebFile` names the
    file on disk, `FileType` is the media type a request carries. */
module Enums {

  /** A file of a team's code directory, valued by its file name. */
  datatype WebFile = Html | Css {
    function Value(): (name: string)
      ensures Html? <==> name == "index.html"
      ensures Css? <==> name == "style.css"
    {
      if Html? then "index.html" else "style.css"
    }

    /** The other file of the pair. */
    function Toggle(): (other: WebFile)
      ensures other != this
    {
      if Html? then Css else Html
    }
  }

  /** The media type of an exchanged file. */
  datatype FileType = HtmlType | CssType {
    function Value(): (media: string)
      ensures HtmlType? <==> media == "text/html"
      ensures CssType? <==> media == "text/css"
    {
      if HtmlType? then "text/html" else "text/css"
    }

    /** The file on disk that holds content of this media type. */
    function Filename(): (file: WebFile)
      ensures file.Html? <==> HtmlType?
    {
      if HtmlType? then Html else Css
    }

    function Toggle(): (other: FileType)
      ensures other != this
    {
      if HtmlType? then CssType else HtmlType
    }
  }

  /** The kind of exchange a report records; `All` only labels the
      aggregate over every kind. */
  datatype Operation = Retrieve | Upload | All

  /** `WebFile.toggle` is an involution without a fixed point. */
  lemma WebFileToggleInvolution(w: WebFile)
    ensures w.Toggle().Toggle() == w
    ensures w.Toggle() != w
  {
  }

  /** `FileType.toggle` is an involution without a fixed point. */
  lemma FileTypeToggleInvolution(t: FileType)
    ensures t.Toggle().Toggle() == t
    ensures t.Toggle() != t
  {
  }

  /** Distinct media types live in distinct files, and the file names differ. */
  lemma FilenameInjective(t: FileType, u: FileType)
    ensures t.Filename() == u.Filename() ==> t == u
    ensures t.Filename().Value() == u.Filename().Value() ==> t == u
  {
  }

  /** Toggling the media type toggles the file. */
  lemma FilenameCommutesWithToggle(t: FileType)
    ensures t.Toggle().Filename() == t.Filename().Toggle()
  {
  }
}

/** `RenderDiffHtml`: turns the line diff DiffPlex computed between an old and
    a new field value into the markup of the report. The diff itself is an
    input here; only its rendering is modelled. */
module DiffHtml {
  import opened Jira
  import Html
  import opened Sequences

  /** DiffPlex's classification of a line. */
  datatype ChangeType = Unchanged | Deleted | Inserted | Imaginary | Modified

  /** One entry of `DiffPaneModel.Lines`. */
  datatype DiffPiece = DiffPiece(kind: ChangeType, text: string)

  /** The element a line is wrapped in. */
  datatype Tag = Ins | Del | Span

  /** The `switch` on the line's type: insertions and deletions get their own
      element, every other kind of line a neutral one. */
  function TagOf(kind: ChangeType): (t: Tag)
    ensures t == Ins <==> kind == Inserted
    ensures t == Del <==> kind == Deleted
  {
    match kind
    case Inserted => Ins
    case Deleted => Del
    case _ => Span
  }

  function TagName(t: Tag): string {
    match t
    case Ins => "ins"
    case Del => "del"
    case Span => "span"
  }

  function Open(t: Tag): string { "<" + TagName(t) + ">" }

  function Close(t: Tag): string { "</" + TagName(t) + "><br/>" }

  /** The markup of one line: its element, the escaped text, a line break. */
  function PieceHtml(p: DiffPiece): (r: string)
    ensures |r| > 5 && r[0] == '<' && r[|r| - 5..] == "<br/>"
  {
    var tag := TagName(TagOf(p.kind));
    "<" + tag + ">" + Html.Encode(p.text) + "</" + tag + "><br/>"
  }

  /** The markup of the lines, one after the other. */
  function Pieces(ps: seq<DiffPiece>): (r: string)
    ensures r == [] <==> ps == []
  {
    if ps == [] then "" else PieceHtml(ps[0]) + Pieces(ps[1..])
  }

  /** The markup `RenderDiffHtml` returns for a diff. */
  function Rendered(ps: seq<DiffPiece>): string {
    "<div>" + Pieces(ps) + "</div>"
  }

  lemma {:induction false} PiecesSnoc(ps: seq<DiffPiece>, p: DiffPiece)
    ensures Pieces(ps + [p]) == Pieces(ps) + PieceHtml(p)
  {
    if ps == [] {
      assert [p][1..] == [];
    } else {
      assert (ps + [p])[1..] == ps[1..] + [p];
      PiecesSnoc(ps[1..], p);
    }
  }

  method RenderDiffHtml(lines: seq<DiffPiece>) returns (html: string)
    ensures html == Rendered(lines)
  {
    html := "<div>";
    assert lines[..0] == [];
    for i := 0 to |lines|
      invariant html == "<div>" + Pieces(lines[..i])
    {
      var tag := TagName(TagOf(lines[i].kind));
      var line := "<" + tag + ">" + Html.Encode(lines[i].text) + "</" + tag + "><br/>";
      assert lines[..i + 1] == lines[..i] + [lines[i]];
      PiecesSnoc(lines[..i], lines[i]);
      Assoc("<div>", Pieces(lines[..i]), line);
      html := html + line;
    }
    assert lines[..|lines|] == lines;
    html := html + "</div>";
  }

  /** What a reader of the markup sees of one line: its element and its text. */
  datatype Block = Block(tag: Tag, text: string)

  function Classified(ps: seq<DiffPiece>): (bs: seq<Block>)
    ensures |bs| == |ps|
    ensures forall i :: 0 <= i < |ps| ==> bs[i] == Block(TagOf(ps[i].kind), ps[i].text)
  {
    if ps == [] then [] else [Block(TagOf(ps[0].kind), ps[0].text)] + Classified(ps[1..])
  }

  /** The position of the first `<` in `s`, or `|s|` if there is none. */
  function FirstLt(s: string): (k: nat)
    ensures k <= |s| && (k < |s| ==> s[k] == '<')
    ensures forall i :: 0 <= i < k ==> s[i] != '<'
  {
    if s == [] || s[0] == '<' then 0 else 1 + FirstLt(s[1..])
  }

  /** Which element `s` opens with. */
  function ParseOpen(s: string): Option<Tag> {
    if |s| >= 5 && s[..5] == "<ins>" then Some(Ins)
    else if |s| >= 5 && s[..5] == "<del>" then Some(Del)
    else if |s| >= 6 && s[..6] == "<span>" then Some(Span)
    else None
  }

  /** Reads the line elements up to the closing `</div>`. */
  function ParseBlocks(s: string): Option<seq<Block>>
    decreases |s|
  {
    if s == "</div>" then Some([])
    else match ParseOpen(s)
      case None => None
      case Some(t) =>
        var body := s[|Open(t)|..];
        var k := FirstLt(body);
        var after := body[k..];
        var close := Close(t);
        if |after| >= |close| && after[..|close|] == close then
          match ParseBlocks(after[|close|..])
          case None => None
          case Some(bs) => Some([Block(t, Html.Decode(body[..k]))] + bs)
        else None
  }

  /** Reads markup of the shape `RenderDiffHtml` writes. */
  function ParseDiffHtml(html: string): Option<seq<Block>> {
    if |html| >= 5 && html[..5] == "<div>" then ParseBlocks(html[5..]) else None
  }

  lemma ParseOpenOf(t: Tag, rest: string)
    ensures ParseOpen(Open(t) + rest) == Some(t)
  {
    var s := Open(t) + rest;
    assert s[..|Open(t)|] == Open(t);
    assert s[..5][1] == s[1] == TagName(t)[0];
  }

  lemma FirstLtOfEncoded(e: string, rest: string)
    requires forall i :: 0 <= i < |e| ==> e[i] != '<'
    requires rest != [] && rest[0] == '<'
    ensures FirstLt(e + rest) == |e|
  {
    var k := FirstLt(e + rest);
    assert (e + rest)[|e|] == '<';
  }

  lemma PieceHtmlSplit(p: DiffPiece, rest: string)
    ensures PieceHtml(p) + rest == Open(TagOf(p.kind)) + (Html.Encode(p.text) + (Close(TagOf(p.kind)) + rest))
  {
    var t := TagOf(p.kind);
    var e := Html.Encode(p.text);
    var name := TagName(t);
    calc {
      PieceHtml(p) + rest;
      ("<" + name + ">" + e + "</" + name + "><br/>") + rest;
      { Assoc("<" + name + ">" + e, "</" + name + "><br/>", rest); }
      ("<" + name + ">" + e) + (Close(t) + rest);
      { Assoc("<" + name + ">", e, Close(t) + rest); }
      Open(t) + (e + (Close(t) + rest));
    }
  }

  lemma ParsePiece(p: DiffPiece, rest: string)
    ensures ParseBlocks(PieceHtml(p) + rest) ==
      match ParseBlocks(rest)
      case None => None
      case Some(bs) => Some([Block(TagOf(p.kind), p.text)] + bs)
  {
    var t := TagOf(p.kind);
    var e := Html.Encode(p.text);
    var s := PieceHtml(p) + rest;
    PieceHtmlSplit(p, rest);
    ParseOpenOf(t, e + (Close(t) + rest));
    assert s[1] != '/';
    assert s != "</div>";
    var body := s[|Open(t)|..];
    assert body == e + (Close(t) + rest);
    FirstLtOfEncoded(e, Close(t) + rest);
    assert body[..|e|] == e;
    assert body[|e|..] == Close(t) + rest;
    Html.DecodeEncode(p.text);
  }

  /** A rendered diff can be read back line by line: one element per input
      line, in order, `ins` exactly for insertions, `del` exactly for
      deletions, holding that line's text. */
  lemma {:induction false} ParseRendered(ps: seq<DiffPiece>)
    ensures ParseBlocks(Pieces(ps) + "</div>") == Some(Classified(ps))
  {
    if ps != [] {
      Assoc(PieceHtml(ps[0]), Pieces(ps[1..]), "</div>");
      ParsePiece(ps[0], Pieces(ps[1..]) + "</div>");
      ParseRendered(ps[1..]);
    }
  }

  lemma RenderedRoundTrip(ps: seq<DiffPiece>)
    ensures ParseDiffHtml(Rendered(ps)) == Some(Classified(ps))
  {
    var h := Rendered(ps);
    assert h[..5] == "<div>";
    assert h[5..] == Pieces(ps) + "</div>";
    ParseRendered(ps);
  }
}

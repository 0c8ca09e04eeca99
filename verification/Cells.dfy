/** The cells of a line that is divided by bars, as Python's `split` and `strip` give them. */
module Cells {
  import opened Text

  /** The pieces of the text between the marks, empty ones included. */
  function Pieces(text: string, mark: char): (pieces: seq<string>)
    ensures |pieces| >= 1
  {
    if text == "" then [""]
    else
      var rest := Pieces(text[1..], mark);
      if text[0] == mark then [""] + rest else [[text[0]] + rest[0]] + rest[1..]
  }

  function AllStripped(pieces: seq<string>): (cells: seq<string>)
    ensures |cells| == |pieces|
  {
    seq(|pieces|, i requires 0 <= i < |pieces| => Strip(pieces[i]))
  }

  function CellsOf(line: string): seq<string> {
    AllStripped(Pieces(line, '|'))
  }

  // ---- A printed line ---------------------------------------------------------------------------

  function Spaces(n: nat): string {
    seq(n, i => ' ')
  }

  /** A cell and how many spaces are printed on its left and right. */
  datatype Padded = Padded(cell: string, left: nat, right: nat) {
    function Text(): string {
      Spaces(left) + cell + Spaces(right)
    }

    /** Nothing to strip in it, and no bar. */
    predicate Plain() {
      Strip(cell) == cell && '|' !in cell
    }
  }

  function Printed(cells: seq<Padded>): string
    requires cells != []
  {
    if |cells| == 1 then cells[0].Text() else cells[0].Text() + "|" + Printed(cells[1..])
  }

  lemma {:induction false} PiecesOfOne(text: string, mark: char)
    requires mark !in text
    ensures Pieces(text, mark) == [text]
    decreases |text|
  {
    if text != "" {
      PiecesOfOne(text[1..], mark);
      assert [text[0]] + text[1..] == text;
    }
  }

  lemma {:induction false} PiecesOfMore(text: string, mark: char, rest: string)
    requires mark !in text
    ensures Pieces(text + [mark] + rest, mark) == [text] + Pieces(rest, mark)
    decreases |text|
  {
    var all := text + [mark] + rest;
    if text == "" {
      assert all == [mark] + rest && all[1..] == rest;
    } else {
      PiecesOfMore(text[1..], mark, rest);
      assert all[1..] == text[1..] + [mark] + rest && all[0] == text[0];
      assert [text[0]] + text[1..] == text;
      var pieces := Pieces(all[1..], mark);
      assert pieces == [text[1..]] + Pieces(rest, mark);
      assert pieces[1..] == Pieces(rest, mark);
    }
  }

  lemma {:induction false} StripSpacesLeft(n: nat, text: string)
    ensures Strip(Spaces(n) + text) == Strip(text)
    decreases n
  {
    if n == 0 {
      assert Spaces(0) + text == text;
    } else {
      var all := Spaces(n) + text;
      assert all[0] == ' ' && all[1..] == Spaces(n - 1) + text;
      StripSpacesLeft(n - 1, text);
    }
  }

  lemma {:induction false} StripSpacesRight(text: string, n: nat)
    requires text == "" || !Blank(text[0])
    ensures Strip(text + Spaces(n)) == Strip(text)
    decreases n
  {
    if n == 0 {
      assert text + Spaces(0) == text;
    } else if text == "" {
      StripSpacesLeft(n, "");
      assert Spaces(n) + "" == text + Spaces(n);
    } else {
      var all := text + Spaces(n);
      assert all[0] == text[0] && all[|all| - 1] == ' ' && all[..|all| - 1] == text + Spaces(n - 1);
      StripSpacesRight(text, n - 1);
    }
  }

  lemma {:induction false} StripIsShorter(text: string)
    ensures |Strip(text)| <= |text|
    ensures Strip(text) == text ==> text == "" || !Blank(text[0])
    decreases |text|
  {
    if text != "" {
      if Blank(text[0]) {
        StripIsShorter(text[1..]);
      } else if Blank(text[|text| - 1]) {
        StripIsShorter(text[..|text| - 1]);
      }
    }
  }

  lemma PaddedStrips(p: Padded)
    requires p.Plain()
    ensures Strip(p.Text()) == p.cell && '|' !in p.Text()
  {
    StripIsShorter(p.cell);
    StripSpacesRight(p.cell, p.right);
    StripSpacesLeft(p.left, p.cell + Spaces(p.right));
    assert p.Text() == Spaces(p.left) + (p.cell + Spaces(p.right));
    assert forall c :: c in Spaces(p.left) || c in Spaces(p.right) ==> c == ' ';
  }

  ghost predicate AllPlain(cells: seq<Padded>) {
    forall i :: 0 <= i < |cells| ==> cells[i].Plain()
  }

  function Contents(cells: seq<Padded>): (r: seq<string>)
    ensures |r| == |cells|
  {
    seq(|cells|, i requires 0 <= i < |cells| => cells[i].cell)
  }

  /** A printed line reads back as its cells, however they are padded. */
  lemma {:induction false} LineReadsBack(cells: seq<Padded>)
    requires cells != [] && AllPlain(cells)
    ensures CellsOf(Printed(cells)) == Contents(cells)
    ensures '|' in Printed(cells) <==> |cells| > 1
    decreases |cells|
  {
    PaddedStrips(cells[0]);
    hide Strip, Padded.Text, Padded.Plain;
    var first := cells[0].Text();
    if |cells| == 1 {
      PiecesOfOne(first, '|');
    } else {
      var rest := Printed(cells[1..]);
      LineReadsBack(cells[1..]);
      PiecesOfMore(first, '|', rest);
      assert first + ['|'] + rest == Printed(cells);
      assert AllStripped([first] + Pieces(rest, '|')) == [Strip(first)] + CellsOf(rest);
      assert Contents(cells) == [cells[0].cell] + Contents(cells[1..]);
      assert '|' == Printed(cells)[|first|];
    }
  }
}

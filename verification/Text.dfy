/** Text handling shared by the readers: Python's `strip` and `partition`. */
module Text {
  predicate Blank(c: char) {
    c in " \t\n\r"
  }

  function Strip(text: string): string {
    if text == "" then ""
    else if Blank(text[0]) then Strip(text[1..])
    else if Blank(text[|text| - 1]) then Strip(text[..|text| - 1])
    else text
  }

  /** The text before and after the first `mark`, and whether there is one. */
  function Partition(text: string, mark: char): (r: (string, bool, string))
    ensures text == if r.1 then r.0 + [mark] + r.2 else r.0
    ensures mark !in r.0 && (!r.1 ==> r.2 == "")
  {
    if text == "" then ("", false, "")
    else if text[0] == mark then ("", true, text[1..])
    else
      var (before, found, after) := Partition(text[1..], mark);
      assert text == [text[0]] + text[1..];
      ([text[0]] + before, found, after)
  }
}

/** Splitting text at a separator, and joining it again. */
module Text {
  /** `text.split(sep)`, for a separator of one character. */
  function Split(text: string, sep: char): (parts: seq<string>)
    ensures |parts| > 0
  {
    if text == "" then [""]
    else
      var rest := Split(text[1..], sep);
      if text[0] == sep then [""] + rest else [[text[0]] + rest[0]] + rest[1..]
  }

  /** `sep.join(parts)`. */
  function Join(parts: seq<string>, sep: string): string {
    if parts == [] then ""
    else if |parts| == 1 then parts[0]
    else parts[0] + sep + Join(parts[1..], sep)
  }

  /** `text.replace(old, new)`: every occurrence of `what`, from the left. */
  function Replace(text: string, what: string, with: string): string
    requires what != ""
  {
    if |text| < |what| then text
    else if text[..|what|] == what then with + Replace(text[|what|..], what, with)
    else [text[0]] + Replace(text[1..], what, with)
  }

  lemma SplitCons(text: string, sep: char)
    requires text != ""
    ensures var rest := Split(text[1..], sep);
            Split(text, sep) == if text[0] == sep then [""] + rest else [[text[0]] + rest[0]] + rest[1..]
  {
  }

  /** Splitting takes two texts with a separator between them apart. */
  lemma {:induction false} SplitConcat(a: string, b: string, sep: char)
    ensures Split(a + [sep] + b, sep) == Split(a, sep) + Split(b, sep)
  {
    var text := a + [sep] + b;
    SplitCons(text, sep);
    if a == "" {
      assert text[1..] == b && Split("", sep) == [""];
    } else {
      hide Split;
      var tail := Split(a[1..], sep);
      SplitConcat(a[1..], b, sep);
      assert text[1..] == a[1..] + [sep] + b;
      assert text[0] == a[0];
      SplitCons(a, sep);
      ConsFirst(a[0], tail, Split(b, sep));
    }
  }

  lemma ConsFirst(c: char, a: seq<string>, b: seq<string>)
    requires |a| > 0
    ensures [""] + (a + b) == [""] + a + b
    ensures [[c] + (a + b)[0]] + (a + b)[1..] == [[c] + a[0]] + a[1..] + b
  {
    assert (a + b)[1..] == a[1..] + b;
  }

  lemma {:induction false} SplitOne(line: string, sep: char)
    requires sep !in line
    ensures Split(line, sep) == [line]
  {
    if line != "" {
      SplitOne(line[1..], sep);
      assert line == [line[0]] + line[1..];
    }
  }

  /** Lines joined by line ends are the lines of the text. */
  lemma {:induction false} SplitJoin(lines: seq<string>, sep: char)
    requires lines != [] && forall line <- lines :: sep !in line
    ensures Split(Join(lines, [sep]), sep) == lines
  {
    SplitOne(lines[0], sep);
    if |lines| > 1 {
      SplitJoin(lines[1..], sep);
      SplitConcat(lines[0], Join(lines[1..], [sep]), sep);
      assert lines == [lines[0]] + lines[1..];
    }
  }

  /** No part holds a separator, and joined again they are the text. */
  lemma {:induction false} SplitParts(text: string, sep: char)
    ensures forall part <- Split(text, sep) :: sep !in part
    ensures Join(Split(text, sep), [sep]) == text
  {
    if text != "" {
      var parts, rest := Split(text, sep), Split(text[1..], sep);
      SplitParts(text[1..], sep);
      SplitCons(text, sep);
      hide Split;
      assert text == [text[0]] + text[1..];
      if text[0] == sep {
        assert parts[1..] == rest;
      } else {
        assert parts[1..] == rest[1..];
        assert rest == [rest[0]] + rest[1..];
      }
    }
  }
}

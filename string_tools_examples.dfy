/** Concrete cases of the string tools, each the expected value of a call. */
module StringToolsExamples {

  import opened StringTools

  lemma TrimExample()
    ensures Trim(" \t\nhello\n\t ") == "hello"
    ensures Trim("") == "" && TrimLeft("") == "" && TrimRight("") == ""
  {
    var s := " \t\nhello\n\t ";
    assert !IsSpace(s[3]) && !IsSpace(s[7]);
    SkipSpacesIs(s, 0, 3);
    SkipSpacesBackIs(s, |s|, 8);
    assert s[3..8] == "hello";
  }

  lemma SplitExample()
    ensures Split("a,b,,c", {','}) == ["a", "b", "", "c"]
  {
    var d := {','};
    SplitExampleTail();
    assert "a,b,,c"[..1] == "a" && "a,b,,c"[2..] == "b,,c";
    SplitAtFirstDelimiter("a,b,,c", d, 1);
  }

  /** Two delimiters in a row give an empty token between them. */
  lemma SplitExampleTail()
    ensures Split("b,,c", {','}) == ["b", "", "c"]
  {
    var d := {','};
    SplitLeadingDelimiterExample();
    assert "b,,c"[..1] == "b" && "b,,c"[2..] == ",c";
    SplitAtFirstDelimiter("b,,c", d, 1);
  }

  /** A delimiter at the start gives an empty first token. */
  lemma SplitLeadingDelimiterExample()
    ensures Split(",c", {','}) == ["", "c"]
  {
    var d := {','};
    assert Split("c", d) == ["c"] by {
      assert Free("c", d);
      SplitWithoutDelimiter("c", d);
    }
    assert ",c"[1..] == "c";
    SplitAtFirstDelimiter(",c", d, 0);
  }

  lemma SplitEmptyExample()
    ensures Split("", {','}) == [""]
  {
  }

  /** Any character of the delimiter set ends a token. */
  lemma SplitManyDelimitersExample()
    ensures Split("a:b;c", {':', ';'}) == ["a", "b", "c"]
  {
    var d := {':', ';'};
    SplitManyDelimitersTail();
    assert "a:b;c"[..1] == "a" && "a:b;c"[2..] == "b;c";
    SplitAtFirstDelimiter("a:b;c", d, 1);
  }

  lemma SplitManyDelimitersTail()
    ensures Split("b;c", {':', ';'}) == ["b", "c"]
  {
    var d := {':', ';'};
    assert Split("c", d) == ["c"] by {
      assert Free("c", d);
      SplitWithoutDelimiter("c", d);
    }
    assert "b;c"[..1] == "b" && "b;c"[2..] == "c";
    SplitAtFirstDelimiter("b;c", d, 1);
  }

  lemma AffixExamples()
    ensures StrStartsWith("hello world", "hello")
    ensures !StrStartsWith("hi", "hello")
    ensures StrEndsWith("hello world", "world")
  {
  }
}

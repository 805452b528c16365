/**
  The part of `System.IO.StringReader` that `Format` uses: a cursor over a fixed
  text whose `ReadLine` returns the next physical line, or null (here `None`)
  once the text is used up.
*/
module StringReading {
  import opened Wrappers
  import opened TextLines

  class StringReader {
    const text: string
    var pos: nat

    ghost predicate Valid()
      reads this
    {
      pos <= |text|
    }

    /** The lines the remaining calls to `ReadLine` will return, in order. */
    ghost function Pending(): seq<string>
      reads this
      requires Valid()
    {
      LinesFrom(text, pos)
    }

    constructor (s: string)
      ensures Valid() && text == s
      ensures Pending() == SplitLines(s)
    {
      text := s;
      pos := 0;
    }

    method ReadLine() returns (line: Option<string>)
      requires Valid()
      modifies this
      ensures Valid()
      ensures old(Pending()) == [] ==> line == None && Pending() == []
      ensures old(Pending()) != [] ==> line == Some(old(Pending())[0]) && Pending() == old(Pending())[1..]
    {
      if pos >= |text| {
        return None;
      }
      var found := FindBreak(text, pos);
      line := Some(text[pos..found]);
      if found == |text| {
        assert text[pos..found] == text[pos..];
        pos := |text|;
      } else {
        pos := SkipBreak(text, found);
      }
    }
  }
}

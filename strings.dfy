/** The part of Go's `strings` package the program relies on: splitting on a separator. */
module Strings {

  /** Concatenates the fields with `sep` between consecutive ones. */
  function Join(parts: seq<string>, sep: char): string
    requires |parts| >= 1
  {
    if |parts| == 1 then parts[0] else parts[0] + [sep] + Join(parts[1..], sep)
  }

  /**
    * `strings.Split(s, sep)` for a one-character separator: the maximal runs of
    * `s` between separators, in order. It never returns an empty list (the empty
    * string splits into one empty field), no field contains the separator, and
    * joining the fields gives back `s`.
    */
  function Split(s: string, sep: char): (parts: seq<string>)
    ensures |parts| >= 1
    ensures forall p | p in parts :: sep !in p
    ensures Join(parts, sep) == s
    decreases |s|
  {
    if s == [] then [""]
    else
      var rest := Split(s[1..], sep);
      if s[0] == sep then
        [""] + rest
      else
        var parts := [[s[0]] + rest[0]] + rest[1..];
        assert parts[1..] == rest[1..];
        parts
  }

  /** The first field of `Split(s, sep)` is the text of `s` before its first separator. */
  lemma FirstField(s: string, sep: char)
    ensures var f := Split(s, sep)[0];
      f <= s && sep !in f && (|f| < |s| ==> s[|f|] == sep)
  {
  }

  /** Splitting a separator-free field followed by a separator peels that field off. */
  lemma {:induction false} SplitField(field: string, sep: char, rest: string)
    requires sep !in field
    ensures Split(field + [sep] + rest, sep) == [field] + Split(rest, sep)
    decreases |field|
  {
    var s := field + [sep] + rest;
    if field != [] {
      assert s[1..] == field[1..] + [sep] + rest;
      SplitField(field[1..], sep, rest);
      var tail := Split(s[1..], sep);
      assert tail[0] == field[1..] && tail[1..] == Split(rest, sep);
      assert [s[0]] + tail[0] == field;
    } else {
      assert s[1..] == rest;
    }
  }

  /** A separator-free field splits into itself alone. */
  lemma SplitPlain(field: string, sep: char)
    requires sep !in field
    ensures Split(field, sep) == [field]
  {
  }

  /** Round trip: splitting a join of separator-free fields gives the fields back. */
  lemma {:induction false} SplitJoin(parts: seq<string>, sep: char)
    requires |parts| >= 1
    requires forall p | p in parts :: sep !in p
    ensures Split(Join(parts, sep), sep) == parts
  {
    if |parts| == 1 {
      SplitPlain(parts[0], sep);
    } else {
      SplitJoin(parts[1..], sep);
      SplitField(parts[0], sep, Join(parts[1..], sep));
    }
  }
}

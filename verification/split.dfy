/**
  Splitting a header value at every ASCII space, the way JavaScript's
  `value.split(" ")` does: every space ends a field, so two neighbouring
  spaces leave an empty field between them, and the string always yields
  at least one field (the empty string yields one empty field).
 */
module SpaceSplit {

  /** The one separator `getAPIKey` splits on; tabs and other white space are ordinary characters. */
  const Space: char := ' '

  /** True when no field holds the separator. */
  predicate SpaceFree(parts: seq<string>) {
    forall i :: 0 <= i < |parts| ==> Space !in parts[i]
  }

  /** The inverse of splitting: the fields glued back together with one space between neighbours. */
  function JoinOnSpace(parts: seq<string>): string
  {
    if |parts| == 0 then ""
    else if |parts| == 1 then parts[0]
    else parts[0] + [Space] + JoinOnSpace(parts[1..])
  }

  /** Putting a character in front of the first field puts it in front of the joined string. */
  lemma JoinConsChar(c: char, parts: seq<string>)
    requires |parts| >= 1
    ensures JoinOnSpace([[c] + parts[0]] + parts[1..]) == [c] + JoinOnSpace(parts)
  {
  }

  /**
    The fields of `s` between its spaces, in order. The result is never
    empty, no field holds a space, and joining the fields again gives
    back `s` exactly.
   */
  function SplitOnSpace(s: string): (parts: seq<string>)
    ensures |parts| >= 1
    ensures SpaceFree(parts)
    ensures JoinOnSpace(parts) == s
    decreases |s|
  {
    if s == [] then [""]
    else
      var rest := SplitOnSpace(s[1..]);
      if s[0] == Space then
        assert ([""] + rest)[1..] == rest;
        [""] + rest
      else
        JoinConsChar(s[0], rest);
        assert [s[0]] + s[1..] == s;
        [[s[0]] + rest[0]] + rest[1..]
  }

  /** A string without a space is a single field. */
  lemma {:induction false} SplitSpaceFree(a: string)
    requires Space !in a
    ensures SplitOnSpace(a) == [a]
  {
    if a != [] {
      SplitSpaceFree(a[1..]);
      assert [a[0]] + a[1..] == a;
    }
  }

  /** A space-free field followed by a space is split off as the first field, and splitting carries on after that space. */
  lemma {:induction false} SplitAfterField(a: string, b: string)
    requires Space !in a
    ensures SplitOnSpace(a + [Space] + b) == [a] + SplitOnSpace(b)
  {
    var s := a + [Space] + b;
    if a == [] {
      assert s[1..] == b;
    } else {
      assert s[1..] == a[1..] + [Space] + b;
      SplitAfterField(a[1..], b);
      assert [a[0]] + a[1..] == a;
    }
  }

  /**
    The other round trip: splitting the join of space-free fields gives
    the fields back. With the postcondition of SplitOnSpace this says that
    SplitOnSpace(s) is the one and only space-free sequence of fields
    whose join is `s`.
   */
  lemma {:induction false} SplitJoin(parts: seq<string>)
    requires |parts| >= 1 && SpaceFree(parts)
    ensures SplitOnSpace(JoinOnSpace(parts)) == parts
  {
    if |parts| == 1 {
      SplitSpaceFree(parts[0]);
    } else {
      assert Space !in parts[0];
      SplitAfterField(parts[0], JoinOnSpace(parts[1..]));
      SplitJoin(parts[1..]);
      assert [parts[0]] + parts[1..] == parts;
    }
  }

  /** The first field is a prefix of the string that ends at the first space or at the end. */
  lemma FirstField(s: string)
    ensures var f := SplitOnSpace(s)[0];
      |f| <= |s| && s[..|f|] == f && (|f| == |s| || s[|f|] == Space)
  {
    var parts := SplitOnSpace(s);
    if |parts| > 1 {
      assert s == parts[0] + ([Space] + JoinOnSpace(parts[1..]));
    }
  }

  /** The number of spaces in a string. */
  function CountSpaces(s: string): nat
  {
    if s == [] then 0 else (if s[0] == Space then 1 else 0) + CountSpaces(s[1..])
  }

  /** A string has exactly one more field than it has spaces. */
  lemma {:induction false} SplitFieldCount(s: string)
    ensures |SplitOnSpace(s)| == CountSpaces(s) + 1
  {
    if s != [] {
      SplitFieldCount(s[1..]);
    }
  }
}

/**
  `getAPIKey`: extracting an API key from the `authorization` entry of an
  HTTP request's header map. The value must start with the scheme `ApiKey`
  (matched exactly, upper and lower case as written) and one space; the key
  is the field right after that space, up to the next space or the end.
  Anything else is "no key" (`null` in the source), and a header that came
  as an array of strings is refused with an error (a throw in the source).
 */
module ApiKeyAuth {
  import opened SpaceSplit

  /** The `authorization` entry: absent (missing or `undefined`), one string, or an array of strings. */
  datatype Header = Absent | Single(s: string) | Multiple(vs: seq<string>)

  /** What `getAPIKey` gives back: `null`, a key (possibly empty), or a throw. */
  datatype Result = Missing | Key(k: string) | Error

  /** The only accepted scheme, compared character for character. */
  const Scheme: string := "ApiKey"

  /** The scheme together with the single space that must follow it. */
  const Prefix: string := Scheme + [Space]

  predicate StartsWith(s: string, p: string) {
    |p| <= |s| && s[..|p|] == p
  }

  /**
    `k` is the key carried by the header value `s`: `s` is `ApiKey `, then
    `k`, which holds no space, then either the end or a space.
   */
  predicate IsKeyOf(s: string, k: string) {
    var n := |Prefix| + |k|;
    n <= |s| && s[..|Prefix|] == Prefix && s[|Prefix|..n] == k && Space !in k
    && (n == |s| || s[n] == Space)
  }

  /** A header value carries at most one key. */
  lemma KeyUnique(s: string, k1: string, k2: string)
    requires IsKeyOf(s, k1) && IsKeyOf(s, k2)
    ensures k1 == k2
  {
  }

  /**
    How the split fields of a header value decide the outcome: the first
    field is exactly the scheme and a second field exists just when the
    value starts with `ApiKey `, and that second field is then the key.
   */
  lemma SchemeField(s: string)
    ensures var parts := SplitOnSpace(s);
      && ((|parts| >= 2 && parts[0] == Scheme) <==> StartsWith(s, Prefix))
      && (|parts| >= 2 && parts[0] == Scheme ==> IsKeyOf(s, parts[1]))
  {
    var parts := SplitOnSpace(s);
    if StartsWith(s, Prefix) {
      var t := s[|Prefix|..];
      assert s == Scheme + [Space] + t;
      SplitAfterField(Scheme, t);
      assert parts[1] == SplitOnSpace(t)[0];
      FirstField(t);
    }
  }

  /**
    The result of `getAPIKey` for one header entry. It is an error exactly
    when the entry is an array; it is a key exactly when the entry is one
    string starting with `ApiKey ` (case-sensitive, one space); and a key it
    returns is the one the value carries (IsKeyOf), so it never holds a space.
    An absent entry, the empty string and every other string give Missing.
   */
  function GetAPIKey(h: Header): (r: Result)
    ensures r.Error? <==> h.Multiple?
    ensures r.Key? <==> h.Single? && StartsWith(h.s, Prefix)
    ensures r.Key? ==> IsKeyOf(h.s, r.k)
  {
    match h
    case Absent => Missing
    case Multiple(_) => Error
    case Single(s) =>
      if s == "" then Missing
      else
        var parts := SplitOnSpace(s);
        SchemeField(s);
        if |parts| < 2 || parts[0] != Scheme then Missing else Key(parts[1])
  }

  /**
    The converse of the last clause of GetAPIKey: a key the value carries
    is the key returned. Together they say that GetAPIKey gives Key(k)
    exactly when `k` is the key that the value carries.
   */
  lemma CarriedKeyIsReturned(s: string, key: string)
    requires IsKeyOf(s, key)
    ensures GetAPIKey(Single(s)) == Key(key)
  {
    KeyUnique(s, GetAPIKey(Single(s)).k, key);
  }

  /**
    General form of the accepted cases: `ApiKey `, a space-free key, then
    nothing or anything that begins with a space, yields exactly that key.
   */
  lemma KeyBeforeSpaceOrEnd(key: string, tail: string)
    requires Space !in key
    requires tail == "" || tail[0] == Space
    ensures GetAPIKey(Single(Prefix + key + tail)) == Key(key)
  {
    var s := Prefix + key + tail;
    assert s[..|Prefix|] == Prefix;
    assert s[|Prefix|..|Prefix| + |key|] == key;
    CarriedKeyIsReturned(s, key);
  }

  /** A key without spaces comes back unchanged, whatever its length or punctuation. */
  lemma KeyRoundTrip(key: string)
    requires Space !in key
    ensures GetAPIKey(Single(Prefix + key)) == Key(key)
  {
    KeyBeforeSpaceOrEnd(key, "");
    assert Prefix + key + "" == Prefix + key;
  }

  /** Words after the key are ignored without error. */
  lemma ExtraWordsIgnored(key: string, rest: string)
    requires Space !in key
    ensures GetAPIKey(Single(Prefix + key + [Space] + rest)) == Key(key)
  {
    KeyBeforeSpaceOrEnd(key, [Space] + rest);
    assert Prefix + key + [Space] + rest == Prefix + key + ([Space] + rest);
  }

  /** `ApiKey ` with nothing after it gives the empty key, which is not Missing. */
  lemma TrailingSpaceGivesEmptyKey()
    ensures GetAPIKey(Single(Prefix)) == Key("")
    ensures GetAPIKey(Single(Prefix)) != Missing
  {
    KeyRoundTrip("");
    assert Prefix + "" == Prefix;
  }

  /** A second space right after `ApiKey ` gives the empty key: the parser does not skip to the next word. */
  lemma ExtraSpacesGiveEmptyKey(rest: string)
    ensures GetAPIKey(Single(Prefix + [Space] + rest)) == Key("")
  {
    ExtraWordsIgnored("", rest);
    assert Prefix + "" + [Space] + rest == Prefix + [Space] + rest;
  }

  /** An absent entry and the empty string both give Missing, never the empty key. */
  lemma AbsentOrEmptyIsMissing()
    ensures GetAPIKey(Absent) == Missing
    ensures GetAPIKey(Single("")) == Missing
    ensures GetAPIKey(Single("")) != Key("")
  {
  }

  /** A first field other than exactly `ApiKey` (another scheme, or another case) gives Missing. */
  lemma WrongSchemeIsMissing(scheme: string, rest: string)
    requires Space !in scheme && scheme != Scheme
    ensures GetAPIKey(Single(scheme + [Space] + rest)) == Missing
  {
    SplitAfterField(scheme, rest);
  }

  /** A value without any space, `ApiKey` alone included, has no second field and gives Missing. */
  lemma NoSpaceIsMissing(s: string)
    requires Space !in s
    ensures GetAPIKey(Single(s)) == Missing
  {
    if s != "" {
      SplitSpaceFree(s);
    }
  }

  /** An array-valued entry is an error whatever its elements, even when one of them is a valid `ApiKey` value. */
  lemma MultipleIsError(vs: seq<string>)
    ensures GetAPIKey(Multiple(vs)) == Error
    ensures GetAPIKey(Multiple(vs)) != Missing && !GetAPIKey(Multiple(vs)).Key?
  {
  }

  /** `n` copies of the character `c`, as `c.repeat(n)`. */
  function Repeat(c: char, n: nat): (r: string)
    ensures |r| == n
    ensures forall i :: 0 <= i < n ==> r[i] == c
  {
    if n == 0 then "" else [c] + Repeat(c, n - 1)
  }

  /** The suite's first case: a plain key is returned. */
  lemma SuiteKey()
    ensures GetAPIKey(Single("ApiKey abc123def456")) == Key("abc123def456")
  {
    CarriedKeyIsReturned("ApiKey abc123def456", "abc123def456");
  }

  /** The suite's case with more words after the key: only the key is returned. */
  lemma SuiteKeyExtraWords()
    ensures GetAPIKey(Single("ApiKey abc123def456 extra parts")) == Key("abc123def456")
  {
    var s := "ApiKey abc123def456 extra parts";
    assert s[..19] == "ApiKey abc123def456";
    CarriedKeyIsReturned(s, "abc123def456");
  }

  /** The suite's case with punctuation in the key: it is returned unchanged. */
  lemma SuiteKeyPunctuation()
    ensures GetAPIKey(Single("ApiKey abc-123_def.456")) == Key("abc-123_def.456")
  {
    CarriedKeyIsReturned("ApiKey abc-123_def.456", "abc-123_def.456");
  }

  /** The suite's long key, `"a".repeat(1000)`, for every length and not only 1000: it is returned unchanged. */
  lemma SuiteLongKey(n: nat)
    ensures GetAPIKey(Single("ApiKey " + Repeat('a', n))) == Key(Repeat('a', n))
  {
    KeyRoundTrip(Repeat('a', n));
    assert Prefix == "ApiKey ";
  }

  /** The suite's strings that give Missing: another scheme, another case, and `ApiKey` alone. */
  lemma SuiteMissing()
    ensures GetAPIKey(Single("Bearer abc123def456")) == Missing
    ensures GetAPIKey(Single("apikey abc123def456")) == Missing
    ensures GetAPIKey(Single("ApiKey")) == Missing
  {
  }

  /** The suite's case with three spaces before the word: the empty key. */
  lemma SuiteExtraSpaces()
    ensures GetAPIKey(Single("ApiKey   abc123def456")) == Key("")
  {
    CarriedKeyIsReturned("ApiKey   abc123def456", "");
  }

  /** The suite's array value, whose first element alone would be accepted, is an error. */
  lemma SuiteArray()
    ensures GetAPIKey(Single("ApiKey abc123")) == Key("abc123")
    ensures GetAPIKey(Multiple(["ApiKey abc123", "Bearer def456"])) == Error
  {
    CarriedKeyIsReturned("ApiKey abc123", "abc123");
  }
}

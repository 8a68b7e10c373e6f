/** `StringExtensions`: prefix matching against a list of candidates. The
    match is an ordinal, case-sensitive, character-by-character test. */
module StringExtensions {
  import opened Nullables
  import opened Enumerable

  /** `prefix` is the first `|prefix|` characters of `s`. */
  predicate IsPrefix(prefix: string, s: string)
  {
    |prefix| <= |s| && s[..|prefix|] == prefix
  }

  /** `s.StartsWithAnyOf(prefixes)` over `IEnumerable<string>`: a null
      string is read as the empty string and a null list as an empty one;
      the result is true exactly when some prefix in the list begins the
      string. */
  function StartsWithAnyOf(s: Nullable<string>, prefixes: Nullable<seq<string>>): (r: bool)
    ensures r <==>
      && prefixes.NonNull?
      && exists i :: 0 <= i < |prefixes.value| && IsPrefix(prefixes.value[i], s.OrElse(""))
  {
    var s' := s.OrElse("");
    Any(prefixes.OrElse([]), (p: string) => p <= s')
  }

  /** `s.StartsWithOneOf(prefixes)` over `IEnumerable<string>`: calls
      `StartsWithAnyOf`. */
  function StartsWithOneOf(s: Nullable<string>, prefixes: Nullable<seq<string>>): (r: bool)
    ensures r <==>
      && prefixes.NonNull?
      && exists i :: 0 <= i < |prefixes.value| && IsPrefix(prefixes.value[i], s.OrElse(""))
  {
    StartsWithAnyOf(s, prefixes)
  }

  /** `s.StartsWithAnyOf(params prefixes)`: calls `StartsWithOneOf` over
      the array. */
  function StartsWithAnyOfParams(s: Nullable<string>, prefixes: Nullable<seq<string>>): (r: bool)
    ensures r <==>
      && prefixes.NonNull?
      && exists i :: 0 <= i < |prefixes.value| && IsPrefix(prefixes.value[i], s.OrElse(""))
  {
    StartsWithOneOf(s, prefixes)
  }

  /** `s.StartsWithOneOf(params prefixes)`: C# overload resolution sends
      the array to the params `StartsWithAnyOf`. */
  function StartsWithOneOfParams(s: Nullable<string>, prefixes: Nullable<seq<string>>): (r: bool)
    ensures r <==>
      && prefixes.NonNull?
      && exists i :: 0 <= i < |prefixes.value| && IsPrefix(prefixes.value[i], s.OrElse(""))
  {
    StartsWithAnyOfParams(s, prefixes)
  }

  /** A null string behaves as the empty string. */
  lemma NullStringIsEmpty(prefixes: Nullable<seq<string>>)
    ensures StartsWithAnyOf(Null, prefixes) == StartsWithAnyOf(NonNull(""), prefixes)
  {
  }

  /** A null prefix list and an empty one both give false. */
  lemma NoPrefixes(s: Nullable<string>)
    ensures !StartsWithAnyOf(s, Null)
    ensures !StartsWithAnyOf(s, NonNull([]))
  {
  }

  /** A null or empty string starts with none of a list of non-empty
      prefixes. */
  lemma EmptyStringMatchesNoNonEmptyPrefix(prefixes: seq<string>)
    requires forall i :: 0 <= i < |prefixes| ==> prefixes[i] != ""
    ensures !StartsWithAnyOf(Null, NonNull(prefixes))
    ensures !StartsWithAnyOf(NonNull(""), NonNull(prefixes))
  {
  }

  /** The match is case-sensitive: "the String" does not start with "The",
      but does start with "the". */
  lemma CaseSensitive()
    ensures !StartsWithAnyOf(NonNull("the String"), NonNull(["The"]))
    ensures StartsWithAnyOf(NonNull("the String"), NonNull(["The", "the"]))
  {
    assert "the String"[0] != "The"[0];
    assert IsPrefix(["The", "the"][1], "the String");
  }

  /** Adding a prefix that begins the string makes the result true. */
  lemma AddingMatchingPrefix(s: string, prefixes: seq<string>, p: string)
    requires IsPrefix(p, s)
    ensures StartsWithAnyOf(NonNull(s), NonNull(prefixes + [p]))
  {
    assert (prefixes + [p])[|prefixes|] == p;
  }
}

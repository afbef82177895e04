# getAPIKey: extracting an API key from the Authorization header

This project models `getAPIKey` from `src/api/auth`, the helper that reads
the `authorization` entry of an HTTP request's header map (the
`Authorization` header of section 11.6.2 of RFC 9110) and extracts the API
key it carries. The implementation file `src/api/auth` is not part of this
model. Its behaviour is pinned down case by case by the vitest suite
`src/tests/auth.test.ts`, and every case in that suite is consistent with
this reading of the function:

- an absent, `undefined` or empty-string entry gives `null`;
- an entry that is an array of strings throws, because `split` is not a
  method of arrays (a non-empty or empty array is truthy in JavaScript, so
  the emptiness check does not catch it);
- otherwise the string is split with `split(" ")`. The result is `null`
  unless there are at least two fields and the first is exactly `ApiKey`.
  When both hold, the second field is returned.

Two files, one module each:

- `split.dfy`, module `SpaceSplit`: `SplitOnSpace` behaves like
  JavaScript's `split(" ")`. It keeps empty fields, so `"a  b"` gives
  `["a", "", "b"]`, and `""` gives `[""]`. `JoinOnSpace` is its inverse,
  and both round trips are proved.
- `auth.dfy`, module `ApiKeyAuth`: the header entry is
  `Header = Absent | Single(s) | Multiple(vs)`. The result is
  `Result = Missing | Key(k) | Error`, where `Missing` stands for `null` and
  `Error` for the throw. `GetAPIKey` computes the result through
  `SplitOnSpace`. Its contract describes the result without any splitting:
  - the result is an error exactly for an array;
  - it is a key exactly for a string that starts with `ApiKey ` (one space);
  - the key is the space-free text after that prefix, up to the next space
    or the end (`IsKeyOf`). `KeyUnique` shows that this text is unique.

  One lemma per property of the suite follows, each stated for all inputs,
  and then the suite's own literal header values, one lemma per test case.
  Three exceptions: the three strings that give `null` (another scheme,
  another case, `ApiKey` alone) share one lemma; the missing, `undefined`
  and empty-string entries are covered by `AbsentOrEmptyIsMissing`, since a
  missing and an `undefined` entry are both `Absent`; and the single
  trailing space is covered by `TrailingSpaceGivesEmptyKey`, whose value
  `Prefix` is `"ApiKey "`.

The scheme is compared case-sensitively, and several spaces after `ApiKey`
give the empty key rather than the next word. Section 11.1 of RFC 9110 makes
auth-scheme names case-insensitive, but the suite requires both behaviours
(`src/tests/auth.test.ts:54-62` and `:84-92`), and the model keeps them.
The empty key `Key("")` and `Missing` are distinct results throughout. No
test uses a tab or other white space; the model splits on the ASCII space
alone, as `split(" ")` does.
`GetAPIKey` is a function, so calling it twice on the same header gives the
same result by construction.

## Model

| member | source | states |
|---|---|---|
| SpaceSplit.SplitOnSpace | src/tests/auth.test.ts:84-102 | splitting at every space, as `split(" ")`, gives at least one field, no field holds a space, and joining the fields with single spaces gives back the input exactly |
| SpaceSplit.SplitJoin | src/tests/auth.test.ts:84-102 | the converse round trip: splitting the join of space-free fields gives those fields back, so the split is the only space-free field sequence that joins to the input |
| SpaceSplit.SplitAfterField | src/tests/auth.test.ts:94-102 | a space-free first field followed by a space is split off on its own, and splitting continues on the remainder unchanged |
| SpaceSplit.SplitSpaceFree | src/tests/auth.test.ts:64-72 | a string with no space is one single field |
| SpaceSplit.FirstField | src/tests/auth.test.ts:84-102 | the first field is a prefix of the string and is followed by a space or by the end, so it stops at the first space |
| SpaceSplit.SplitFieldCount | src/tests/auth.test.ts:84-92 | a string has one more field than it has spaces, empty fields included |
| ApiKeyAuth.GetAPIKey | src/tests/auth.test.ts:6-132 | error exactly for an array-valued entry; a key exactly for a single string starting with `ApiKey ` (case-sensitive, one space); the key returned is the space-free text after that prefix up to the next space or the end; everything else, absent and empty string included, is Missing |
| ApiKeyAuth.KeyUnique | src/tests/auth.test.ts:94-102 | a header value carries at most one key in the sense of `IsKeyOf`, so the contract of GetAPIKey fixes the key |
| ApiKeyAuth.SchemeField | src/tests/auth.test.ts:44-72 | the split's first field is exactly `ApiKey` and a second field exists exactly when the value starts with `ApiKey `, and the second field is then the key the value carries |
| ApiKeyAuth.CarriedKeyIsReturned | src/tests/auth.test.ts:6-14 | the converse of GetAPIKey's last clause: whenever a value carries a key in the sense of `IsKeyOf`, that key is what GetAPIKey returns |
| ApiKeyAuth.KeyBeforeSpaceOrEnd | src/tests/auth.test.ts:74-102 | `ApiKey `, a space-free key, then nothing or anything that starts with a space, gives exactly that key |
| ApiKeyAuth.KeyRoundTrip | src/tests/auth.test.ts:104-123 | every space-free key, of any length and punctuation, comes back unchanged from `ApiKey ` followed by it |
| ApiKeyAuth.ExtraWordsIgnored | src/tests/auth.test.ts:94-102 | words after the key and a space are ignored without error; only the key is returned |
| ApiKeyAuth.TrailingSpaceGivesEmptyKey | src/tests/auth.test.ts:74-82 | `ApiKey ` with one trailing space gives the empty key, which is not Missing |
| ApiKeyAuth.ExtraSpacesGiveEmptyKey | src/tests/auth.test.ts:84-92 | a second space right after `ApiKey ` gives the empty key whatever follows; the parser does not skip ahead to the next word |
| ApiKeyAuth.AbsentOrEmptyIsMissing | src/tests/auth.test.ts:16-42 | an absent entry and the empty string both give Missing and never the empty key |
| ApiKeyAuth.WrongSchemeIsMissing | src/tests/auth.test.ts:44-62 | any space-free first field other than exactly `ApiKey`, including another scheme or another letter case, gives Missing whatever follows |
| ApiKeyAuth.NoSpaceIsMissing | src/tests/auth.test.ts:64-72 | a value with no space at all, `ApiKey` alone included, has no second field and gives Missing |
| ApiKeyAuth.MultipleIsError | src/tests/auth.test.ts:125-132 | an array-valued entry is an error whatever its elements, never a key and never Missing |
| ApiKeyAuth.Repeat | src/tests/auth.test.ts:115 | `c.repeat(n)` has length n and every character is c |
| ApiKeyAuth.SuiteKey | src/tests/auth.test.ts:6-14 | `ApiKey abc123def456` gives the key `abc123def456` |
| ApiKeyAuth.SuiteKeyExtraWords | src/tests/auth.test.ts:94-102 | `ApiKey abc123def456 extra parts` gives the key `abc123def456` |
| ApiKeyAuth.SuiteKeyPunctuation | src/tests/auth.test.ts:104-112 | `ApiKey abc-123_def.456` gives the key `abc-123_def.456` |
| ApiKeyAuth.SuiteLongKey | src/tests/auth.test.ts:114-123 | `ApiKey ` followed by `"a".repeat(n)` gives that key, for n = 1000 and every other length |
| ApiKeyAuth.SuiteMissing | src/tests/auth.test.ts:44-72 | `Bearer abc123def456`, `apikey abc123def456` and `ApiKey` alone each give Missing |
| ApiKeyAuth.SuiteExtraSpaces | src/tests/auth.test.ts:84-92 | `ApiKey   abc123def456` gives the empty key |
| ApiKeyAuth.SuiteArray | src/tests/auth.test.ts:125-132 | the array `["ApiKey abc123", "Bearer def456"]` is an error, although its first element alone gives the key `abc123` |

## Left out

- The implementation file `src/api/auth` is not part of this model. The function is reconstructed from the suite's assertions and agrees with all of them.
- Behaviour on white space other than the ASCII space (a tab, say) is not pinned down by the suite; the model's choice to treat it as an ordinary character follows `split(" ")` and is not backed by a test.
- The vitest harness (`describe`, `it`, `expect`) is test plumbing, not logic.
- `IncomingHttpHeaders` beyond its `authorization` entry is left out. Node's own header parsing, lower-casing and the joining of repeated headers are not modelled.
- The JavaScript `null` and `undefined` entry values are not told apart. Both are `Absent`, because the function treats every falsy value alike.
- The throw is the `Error` result, not exception semantics. The `TypeError` class and its message are left out.
- Key lookup and validation against a key store, HTTP server wiring, and the rest of `src/api/auth` are left out. None of them is part of this model.

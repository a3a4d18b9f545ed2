# VeriChain credentials: the hashing core and the three pages

This project models the core of VeriChain in Dafny. VeriChain is a web app where a university issues academic credentials, employers verify them, and recruiters search them. The model covers five parts:

- **Hashing.** `hashJSON` in `src/lib/crypto.ts` identifies a credential by a digest:
  - It sorts object keys recursively (`canonicalizeJSON`).
  - It serialises the result as `JSON.stringify` does and encodes the text as UTF-8.
  - It hashes the bytes with SHA-256 and renders the 32 bytes as 64 lower-case hex digits.
  - Modules: `KeyOrder`, `KeySort`, `Canonical`, `Serialize`, `Utf8`, `Hex`, `Digest`.
- **The registry.** The `credentials` table is a sequence of rows. A lookup by hash behaves like `.maybeSingle()`: no row, one row, or an error when several rows match (`Registry`).
- **The verification page** (`Verify.tsx`, module `VerifyPage`).
  - A class `Verifier` holds the page's state.
  - `handleVerify` has an empty-input guard. It parses the input, hashes it, looks the hash up, and returns one of three verdicts: not found, revoked, valid. On any failure the result stays empty.
  - `handleClear` resets the page.
- **The issuance page** (`Admin.tsx`, module `AdminPage`).
  - A class `Issuer` holds the six-field `CredentialData` form and its flags.
  - The upload gate accepts an `image/*` file of at most 5 MiB.
  - `handleIssue` refuses to issue unless all six fields are filled and a wallet provider is present.
  - The row it inserts stores the hash and the canonical JSON of the form. The form is reset on success only.
  - `handleCancel` clears the form.
- **The recruiter page** (`Recruiter.tsx`, module `RecruiterPage`).
  - A class `CandidateSearch` holds the page's state.
  - `handleSearch` has an empty-query guard and lower-cases the query. Keywords in the query switch on `ILIKE` filters, all joined with AND and always with `is_revoked = false`.
  - A `gpa <op> number` phrase adds an in-memory GPA threshold.
  - `handleClear` resets the page.

Outside calls enter the model as parameters:

- **SHA-256** is a parameter `sha: seq<byte> -> Digest32`. It is any function returning 32 bytes.
- **`JSON.parse`** is a parameter `parse: string -> Option<Json>`.
- **The database** is a table value plus a flag saying whether the call fails.
- **The wallet calls** appear as optional values: `connectWallet` as the address, `simulateTransaction` as the transaction id.
- **The GPA comparison** `parseFloat(c.gpa) >= parseFloat(token)` is a parameter `atLeast`.

The main results:

- **Key order.** Canonicalising makes the hash independent of key order. Two well-formed values have the same canonical form exactly when they are equal as JSON data once members keyed `__proto__` are disregarded (`Canonical.SameCanonicalIff`). So values equal up to key order hash alike (`Digest.KeyOrderInvariant`).
- **`__proto__`.** The assignment `sorted[key] = …` in `canonicalizeJSON` does not create a member named `__proto__`: it runs the setter inherited from `Object.prototype`, and `JSON.stringify` then writes nothing for that key. So a member keyed `__proto__`, whatever its value, changes neither the canonical form nor the hash (`Canonical.ProtoMemberIgnored`, `Digest.ProtoMemberSameHash`). A credential pasted with an extra `__proto__` member still verifies.
- **Collisions.** Two different credential forms can only share a hash through a SHA-256 collision (`AdminPage.SameHashIsCollision`).
- **Issue then verify.** A credential issued under a fresh hash is found and reported valid when the same data is pasted back in any key order (`AdminPage.IssueThenVerify`).
- **Search.** A row appears in the search results exactly when it:
  - is in the table;
  - is not revoked;
  - meets the filter of every rule the query fires;
  - passes the GPA threshold, when the query carries one (`RecruiterPage.SearchIff`).

## Model

| member | source | states |
|---|---|---|
| KeyOrder.Reflexive | verichain-credentials-main/src/lib/crypto.ts:19 | the default sort order puts every key at or before itself |
| KeyOrder.Total | verichain-credentials-main/src/lib/crypto.ts:19 | any two keys are comparable |
| KeyOrder.Antisymmetric | verichain-credentials-main/src/lib/crypto.ts:19 | keys ordered both ways are equal |
| KeyOrder.Transitive | verichain-credentials-main/src/lib/crypto.ts:19 | the key order is transitive |
| KeyOrder.Trichotomy | verichain-credentials-main/src/lib/crypto.ts:19 | two keys are equal or strictly ordered one way or the other |
| KeySort.SortByKey | verichain-credentials-main/src/lib/crypto.ts:18-19 | definition: insertion sort of the members by the key order; properties in `SortByKeyPermutes`, `SortByKeySorted`, `SortByKeyStrictlySorted` |
| KeySort.InsertPermutes | verichain-credentials-main/src/lib/crypto.ts:18-19 | inserting a member adds exactly that member (multiset) |
| KeySort.SortByKeyPermutes | verichain-credentials-main/src/lib/crypto.ts:18-19 | sorting the members is a permutation of them |
| KeySort.SameKeys | verichain-credentials-main/src/lib/crypto.ts:18-21 | a permutation of the members has the same key set |
| KeySort.InsertSorted | verichain-credentials-main/src/lib/crypto.ts:18-19 | inserting into a key-sorted list keeps it sorted |
| KeySort.SortByKeySorted | verichain-credentials-main/src/lib/crypto.ts:18-19 | the sorted members ascend by key |
| KeySort.InsertStrictlySorted | verichain-credentials-main/src/lib/crypto.ts:18-19 | inserting a new key into a strictly sorted list keeps it strictly sorted |
| KeySort.SortByKeyStrictlySorted | verichain-credentials-main/src/lib/crypto.ts:18-19 | with distinct keys the sorted members strictly ascend |
| KeySort.SortByKeyOfSorted | verichain-credentials-main/src/lib/crypto.ts:18-19 | sorting an already sorted member list changes nothing |
| KeySort.StrictlySortedUnique | verichain-credentials-main/src/lib/crypto.ts:18-22 | two strictly sorted lists with the same members are identical, so the sorted object is determined by its members |
| KeySort.StrictlySortedByNeighbours | verichain-credentials-main/src/lib/crypto.ts:18-19 | keys that ascend from each member to the next ascend throughout |
| Canonical.Canonicalize | verichain-credentials-main/src/lib/crypto.ts:8-25 | definition: scalars returned as they are, arrays mapped element by element, an object rebuilt from its keys in sorted order with each value canonicalised; properties in `ScalarUnchanged`, `ArrayElementwise`, `ObjectSortedByKey`, `SameCanonicalIff` |
| Canonical.Assigned | verichain-credentials-main/src/lib/crypto.ts:17-22 | definition: the members the assignments `sorted[key] = …` create, which are all but those keyed `__proto__` (that assignment runs the inherited setter); properties in `AssignedMembers`, `AssignedKeys` |
| Canonical.AssignedMembers | verichain-credentials-main/src/lib/crypto.ts:17-22 | a member is created exactly when it is a member of the input whose key is not `__proto__` |
| Canonical.AssignedKeys | verichain-credentials-main/src/lib/crypto.ts:17-22 | the created keys are the input keys minus `__proto__` |
| Canonical.AssignedDistinct | verichain-credentials-main/src/lib/crypto.ts:17-22 | distinct input keys give distinct created keys |
| Canonical.AssignedAll | verichain-credentials-main/src/lib/crypto.ts:17-22 | without a `__proto__` key every member is created, in order |
| Canonical.SortAssigned | verichain-credentials-main/src/lib/crypto.ts:18-22 | the created members in sorted order: key set the input keys minus `__proto__`, ascending by key (strictly when the keys are distinct), members exactly the input members not keyed `__proto__` |
| Canonical.ScalarUnchanged | verichain-credentials-main/src/lib/crypto.ts:9-11 | null, booleans, numbers and strings come back unchanged |
| Canonical.ArrayElementwise | verichain-credentials-main/src/lib/crypto.ts:13-15 | an array keeps its length and order and each element is canonicalised |
| Canonical.ObjectSortedByKey | verichain-credentials-main/src/lib/crypto.ts:17-24 | an object canonicalises to an object whose key set is the input key set minus `__proto__`, whose members ascend by key (strictly when the keys are distinct), and whose members are exactly the input members not keyed `__proto__`, values canonicalised |
| Canonical.CanonicalizeIsCanonical | verichain-credentials-main/src/lib/crypto.ts:8-25 | canonicalising a well-formed value yields a well-formed value whose objects are strictly key-sorted and have no `__proto__` key at every depth |
| Canonical.CanonicalFixpoint | verichain-credentials-main/src/lib/crypto.ts:8-25 | a value whose objects are strictly key-sorted and have no `__proto__` key at every depth is a fixed point |
| Canonical.Idempotent | verichain-credentials-main/src/lib/crypto.ts:8-25 | canonicalising twice is canonicalising once |
| Canonical.EquivSameCanonical | verichain-credentials-main/src/lib/crypto.ts:8-25 | values equal up to key order have the same canonical form |
| Canonical.MatchingObjectsCanonical | verichain-credentials-main/src/lib/crypto.ts:17-24 | objects with the same keys apart from `__proto__`, whose values under each other key canonicalise alike, canonicalise alike |
| Canonical.EquivIsKept | verichain-credentials-main/src/lib/crypto.ts:8-25 | values equal up to key order are equal once members keyed `__proto__` are disregarded |
| Canonical.KeptSameCanonical | verichain-credentials-main/src/lib/crypto.ts:8-25 | values equal up to key order and members keyed `__proto__`, at every depth, have the same canonical form |
| Canonical.SameCanonicalKept | verichain-credentials-main/src/lib/crypto.ts:8-25 | values with the same canonical form are equal up to key order and members keyed `__proto__` |
| Canonical.SameCanonicalIff | verichain-credentials-main/src/lib/crypto.ts:8-25 | same canonical form if and only if equal up to key order and members keyed `__proto__` |
| Canonical.ProtoMemberIgnored | verichain-credentials-main/src/lib/crypto.ts:17-22 | a member keyed `__proto__` in front of an object, whatever its value, leaves the canonical form unchanged |
| Canonical.ReorderedObject | verichain-credentials-main/src/lib/crypto.ts:17-24 | two orderings of the same members canonicalise alike |
| Canonical.ScalarObjectCanonical | verichain-credentials-main/src/lib/crypto.ts:17-24 | a flat object canonicalises to the strictly sorted list of its own members other than one keyed `__proto__` |
| Serialize.Escape | verichain-credentials-main/src/lib/crypto.ts:32 | definition: each character replaced by the escape `JSON.stringify` writes for it; properties in `ReadEscaped` |
| Serialize.Quote | verichain-credentials-main/src/lib/crypto.ts:32 | definition: the escaped text between double quotes; properties in `QuoteInjective` |
| Serialize.Serialize | verichain-credentials-main/src/lib/crypto.ts:32 | definition: `JSON.stringify` without indentation, members and elements in order, comma-separated; properties in `SerializeStringObject`, `StringObjectInjective` |
| Serialize.ReadEscapeChar | verichain-credentials-main/src/lib/crypto.ts:32 | reading back the escape of one character yields that character |
| Serialize.ReadEscaped | verichain-credentials-main/src/lib/crypto.ts:32 | reading back an escaped string up to its closing quote yields the string and the rest of the text |
| Serialize.QuoteInjective | verichain-credentials-main/src/lib/crypto.ts:32 | a string literal determines the string, even with text after it |
| Serialize.StringMembersInjective | verichain-credentials-main/src/lib/crypto.ts:32 | the joined `"key":"value"` members with fixed keys determine the values |
| Serialize.SerializeStringObject | verichain-credentials-main/src/lib/crypto.ts:32 | an object of strings is written as braces around its comma-joined `"key":"value"` members |
| Serialize.StringObjectInjective | verichain-credentials-main/src/lib/crypto.ts:32 | objects of strings with the same keys serialise alike only if their values agree |
| Utf8.EncodeChar | verichain-credentials-main/src/lib/crypto.ts:34-35 | a code point takes one to four bytes, one exactly when it is ASCII |
| Utf8.Encode | verichain-credentials-main/src/lib/crypto.ts:34-35 | the encoding has between one and four bytes per character |
| Utf8.DecodeFirst | verichain-credentials-main/src/lib/crypto.ts:34-35 | a successful decode of the first code point consumes between one byte and the whole input |
| Utf8.DecodeFirstEncodeChar | verichain-credentials-main/src/lib/crypto.ts:34-35 | the first code point of an encoded character followed by anything is that character |
| Utf8.DecodeEncode | verichain-credentials-main/src/lib/crypto.ts:34-35 | decoding the encoding gives back the text |
| Utf8.EncodeInjective | verichain-credentials-main/src/lib/crypto.ts:34-35 | distinct texts have distinct encodings |
| Utf8.AsciiOneBytePerChar | verichain-credentials-main/src/lib/crypto.ts:34-35 | ASCII text encodes as one byte per character, the byte being the character code |
| Hex.ByteToHex | verichain-credentials-main/src/lib/crypto.ts:39 | a byte renders as exactly two lower-case digits, high nibble first, zero-padded |
| Hex.Encode | verichain-credentials-main/src/lib/crypto.ts:38-39 | the rendering has two characters per byte |
| Hex.EncodeDigitAt | verichain-credentials-main/src/lib/crypto.ts:38-39 | byte i becomes digit 2i (its high nibble) and digit 2i+1 (its low nibble) |
| Hex.EncodeDigits | verichain-credentials-main/src/lib/crypto.ts:38-39 | byte i becomes digits 2i (high nibble) and 2i+1 (low nibble) |
| Hex.EncodeIsLowerHex | verichain-credentials-main/src/lib/crypto.ts:38-39 | the rendering is all lower-case hex digits |
| Hex.DecodeEncode | verichain-credentials-main/src/lib/crypto.ts:38-39 | reading the rendering back gives the bytes |
| Hex.EncodeInjective | verichain-credentials-main/src/lib/crypto.ts:38-39 | distinct byte strings render differently |
| Digest.CanonicalBytes | verichain-credentials-main/src/lib/crypto.ts:31-35 | definition: the UTF-8 bytes of the serialised canonical form; properties in `Digest.HashJson`, `AdminPage.CanonicalBytesInjective` |
| Digest.HashJson | verichain-credentials-main/src/lib/crypto.ts:30-42 | the hash is 64 characters that read back as the SHA-256 of the UTF-8 bytes of the serialised canonical value |
| Digest.HashIsLowerHex | verichain-credentials-main/src/lib/crypto.ts:38-41 | every character of the hash is a lower-case hex digit |
| Digest.HashOfCanonical | verichain-credentials-main/src/lib/crypto.ts:31 | hashing the canonical form gives the same hash as hashing the value |
| Digest.KeyOrderInvariant | verichain-credentials-main/src/lib/crypto.ts:30-42 | values equal up to key order hash alike |
| Digest.ProtoMemberSameHash | verichain-credentials-main/src/lib/crypto.ts:17-39 | a member keyed `__proto__` in front of an object, whatever its value, leaves the hash unchanged |
| Digest.SameHashIff | verichain-credentials-main/src/lib/crypto.ts:36-41 | two hashes match exactly when the SHA-256 digests match |
| Text.Trim | verichain-credentials-main/src/pages/Verify.tsx:22 | definition: `trim()` as `trimEnd` after `trimStart`; properties in `TrimStart`, `TrimEnd`, `BlankIff` |
| Text.TrimStart | verichain-credentials-main/src/pages/Verify.tsx:22 | the result is the suffix left after removing the leading white space |
| Text.TrimEnd | verichain-credentials-main/src/pages/Verify.tsx:22 | the result is the prefix left after removing the trailing white space |
| Text.BlankIff | verichain-credentials-main/src/pages/Recruiter.tsx:17 | trimming leaves nothing exactly when every character is white space, so the pages' emptiness test is `IsBlank` |
| Text.ToLower | verichain-credentials-main/src/pages/Recruiter.tsx:30 | lower-casing keeps the length, maps each character, and leaves no upper-case ASCII letter |
| Text.ToLowerIdempotent | verichain-credentials-main/src/pages/Recruiter.tsx:30 | lower-casing twice is lower-casing once |
| Text.Contains | verichain-credentials-main/src/pages/Recruiter.tsx:43-63 | definition: `includes` as a scan from the left; properties in `ContainsIff`, `ContainsAt` |
| Text.ContainsIff | verichain-credentials-main/src/pages/Recruiter.tsx:43-63 | `includes` holds exactly when the word occurs at some position |
| Text.ContainsAt | verichain-credentials-main/src/pages/Recruiter.tsx:43-63 | an occurrence at a known position makes `includes` true |
| Registry.LookupByHash | verichain-credentials-main/src/pages/Verify.tsx:42-48 | the lookup is Missing exactly when no row has the hash, and Found exactly when one row has it, in which case it returns that row |
| Registry.InsertedFresh | verichain-credentials-main/src/pages/Admin.tsx:177-188 | a row inserted under a hash no row carries is what a later lookup of that hash finds |
| VerifyPage.Classify | verichain-credentials-main/src/pages/Verify.tsx:50-67 | valid exactly when a row was found and is not revoked; the row is attached whenever found; the not-found and revoked messages |
| VerifyPage.ValidIff | verichain-credentials-main/src/pages/Verify.tsx:42-67 | the verdict is valid exactly when one row carries the input's hash and it is not revoked |
| VerifyPage.Verifier.constructor | verichain-credentials-main/src/pages/Verify.tsx:13-19 | empty input, not verifying, no result |
| VerifyPage.Verifier.SetInput | verichain-credentials-main/src/pages/Verify.tsx:111 | the input becomes the typed text and nothing else changes |
| VerifyPage.Verifier.HandleVerify | verichain-credentials-main/src/pages/Verify.tsx:21-78 | blank input changes nothing; a parse failure, a query error or an ambiguous lookup leaves the result empty; otherwise the result is the classification of the lookup of the input's hash; the busy flag ends false |
| VerifyPage.Verifier.HandleClear | verichain-credentials-main/src/pages/Verify.tsx:80-83 | input emptied and result cleared |
| AdminPage.With | verichain-credentials-main/src/pages/Admin.tsx:137-139 | the named field takes the value and every other field is kept |
| AdminPage.ToJson | verichain-credentials-main/src/pages/Admin.tsx:170-171 | definition: the form as the JSON object handed to `canonicalizeJSON` and `hashJSON`, members in declaration order; properties in `ToJsonFields`, `RecordWellFormed`, `CanonicalizeRecord` |
| AdminPage.FormValues | verichain-credentials-main/src/pages/Admin.tsx:12-19 | one value per field of the form |
| AdminPage.RecordValues | verichain-credentials-main/src/pages/Admin.tsx:12-19 | one value per key of the canonical record |
| AdminPage.AllFieldsListed | verichain-credentials-main/src/pages/Admin.tsx:12-19 | the list of fields the filter walks holds every field of the record |
| AdminPage.ToJsonFields | verichain-credentials-main/src/pages/Admin.tsx:12-19 | the form object has one member per field, in declaration order, the member for field f being its interface key with its value |
| AdminPage.EmptyAmong | verichain-credentials-main/src/pages/Admin.tsx:143 | the filter keeps exactly the given fields that are empty |
| AdminPage.EmptyFields | verichain-credentials-main/src/pages/Admin.tsx:143-151 | a field is listed exactly when it is empty |
| AdminPage.IssueGate | verichain-credentials-main/src/pages/Admin.tsx:143-151 | no field is listed as empty exactly when all six are filled |
| AdminPage.RecordWellFormed | verichain-credentials-main/src/pages/Admin.tsx:12-19 | the form as a JSON object has six distinct keys |
| AdminPage.RecordKeysAscend | verichain-credentials-main/src/pages/Admin.tsx:170 | the canonical record's keys strictly ascend |
| AdminPage.NoProtoMember | verichain-credentials-main/src/pages/Admin.tsx:12-19 | no key of the form object is `__proto__`, so canonicalising drops none of its members |
| AdminPage.RecordSameMembers | verichain-credentials-main/src/pages/Admin.tsx:170 | the sorted record holds exactly the form's members |
| AdminPage.CanonicalizeRecord | verichain-credentials-main/src/pages/Admin.tsx:170 | the canonical form of the credential is its six fields in key order |
| AdminPage.RecordTextInjective | verichain-credentials-main/src/pages/Admin.tsx:171 | distinct credentials serialise differently |
| AdminPage.CanonicalBytesInjective | verichain-credentials-main/src/pages/Admin.tsx:171 | distinct credentials hand different bytes to SHA-256 |
| AdminPage.SameHashIsCollision | verichain-credentials-main/src/pages/Admin.tsx:171 | two distinct credentials with the same hash expose a SHA-256 collision |
| AdminPage.IssuedRow | verichain-credentials-main/src/pages/Admin.tsx:177-188 | definition: the six fields, the hash of the form, the wallet address, the transaction id, the canonical form as `raw_json`, not revoked; properties in `IssuedRowFields`, `IssuedRowRaw`, `IssuedRowRehashes` |
| AdminPage.IssuedRowFields | verichain-credentials-main/src/pages/Admin.tsx:177-188 | the inserted row copies the six fields, the wallet address and the transaction id, and is not revoked |
| AdminPage.IssuedRowRaw | verichain-credentials-main/src/pages/Admin.tsx:170-186 | the stored raw JSON is the canonical record |
| AdminPage.IssuedRowRehashes | verichain-credentials-main/src/pages/Admin.tsx:170-186 | the stored hash is the hash of the form and also the hash of the stored raw JSON |
| AdminPage.ReorderedHashMatches | verichain-credentials-main/src/pages/Admin.tsx:171 | the credential pasted with its members in any order hashes to the stored hash |
| AdminPage.IssueThenVerify | verichain-credentials-main/src/pages/Admin.tsx:170-188 | after issuing under a fresh hash, verifying the same data in any key order finds the new row and reports it valid |
| AdminPage.CheckUpload | verichain-credentials-main/src/pages/Admin.tsx:37-59 | no file exactly when none was chosen; invalid type exactly when a file's type does not start with `image/`, whatever its size; too large exactly when an image is above 5 MiB; accepted exactly when an image is at most 5 MiB |
| AdminPage.IssueOutcome | verichain-credentials-main/src/pages/Admin.tsx:141-219 | definition: the notice `handleIssue` ends with, gate by gate; properties in `IssueOutcomeIff` |
| AdminPage.IssueOutcomeIff | verichain-credentials-main/src/pages/Admin.tsx:141-219 | incomplete exactly when a field is empty; wallet missing exactly when all are filled and there is no provider; issued exactly when both gates pass and the wallet, transaction and insert succeed, with the hash of the form |
| AdminPage.Issuer.constructor | verichain-credentials-main/src/pages/Admin.tsx:24-35 | empty form, hidden, no image, not issuing, not extracting |
| AdminPage.Issuer.HandleInputChange | verichain-credentials-main/src/pages/Admin.tsx:137-139 | only the named field changes |
| AdminPage.Issuer.HandleFileSelect | verichain-credentials-main/src/pages/Admin.tsx:37-61 | returns the upload check; extraction starts only for an accepted file; nothing else changes |
| AdminPage.Issuer.CompleteExtraction | verichain-credentials-main/src/pages/Admin.tsx:65-99 | the image is kept and extraction ends; extracted data fills and shows the form, a failure leaves it |
| AdminPage.Issuer.HandleIssue | verichain-credentials-main/src/pages/Admin.tsx:141-219 | the notice is the issue outcome; when issued, the table gains exactly the issued row and the form is reset and hidden; otherwise the table and the form are unchanged |
| AdminPage.Issuer.HandleCancel | verichain-credentials-main/src/pages/Admin.tsx:221-233 | form emptied and hidden, image dropped |
| RecruiterPage.QueryFilters | verichain-credentials-main/src/pages/Recruiter.tsx:37-65 | definition: the conditions the query builds, `is_revoked = false` then the filter of each rule that fires; properties in `ConditionsIff`, `RulesUnrolled`, `BuildFilters` |
| RecruiterPage.Holds | verichain-credentials-main/src/pages/Recruiter.tsx:40-65 | definition: a row meets `is_revoked = false` when not revoked and an `ILIKE '%w%'` filter when the column contains the word, case ignored; properties in `Select`, `SearchIff` |
| RecruiterPage.ConditionsIff | verichain-credentials-main/src/pages/Recruiter.tsx:37-65 | a condition is in the query exactly when it is `is_revoked = false` or the filter of a rule that fires |
| RecruiterPage.SingleTrigger | verichain-credentials-main/src/pages/Recruiter.tsx:47-63 | a one-keyword rule fires exactly when the query contains the keyword |
| RecruiterPage.TwoTriggers | verichain-credentials-main/src/pages/Recruiter.tsx:43 | a two-keyword rule fires exactly when the query contains either keyword |
| RecruiterPage.RulesUnrolled | verichain-credentials-main/src/pages/Recruiter.tsx:37-65 | the conditions are `is_revoked = false` followed by each rule's filter in order, and each rule fires on exactly its `includes` tests |
| RecruiterPage.BuildFilters | verichain-credentials-main/src/pages/Recruiter.tsx:37-65 | the chain of `if` statements builds exactly the conditions the rule table prescribes |
| RecruiterPage.Select | verichain-credentials-main/src/pages/Recruiter.tsx:37-69 | a row is returned exactly when it is in the table and meets every condition |
| RecruiterPage.KeepAtLeast | verichain-credentials-main/src/pages/Recruiter.tsx:72-75 | a row is kept exactly when it passes the GPA comparison |
| RecruiterPage.Span | verichain-credentials-main/src/pages/Recruiter.tsx:33 | the longest prefix of characters of one class, as the greedy parts of the pattern take it |
| RecruiterPage.SearchResults | verichain-credentials-main/src/pages/Recruiter.tsx:37-75 | definition: the rows that meet every condition, then kept by the GPA comparison when the query carries a threshold; properties in `SearchIff`, `NeverRevoked`, `NoGpaPhraseNoThreshold` |
| RecruiterPage.RunSearch | verichain-credentials-main/src/pages/Recruiter.tsx:30-75 | the rows shown are the search results of the lower-cased query |
| RecruiterPage.SearchIff | verichain-credentials-main/src/pages/Recruiter.tsx:37-75 | a row is shown exactly when it is in the table, not revoked, meets every fired rule's filter and, when a GPA phrase is present, the threshold |
| RecruiterPage.NeverRevoked | verichain-credentials-main/src/pages/Recruiter.tsx:37-40 | no search result is revoked |
| RecruiterPage.NoGpaPhraseNoThreshold | verichain-credentials-main/src/pages/Recruiter.tsx:73-75 | without a GPA phrase the results are the database rows unfiltered |
| RecruiterPage.NoGpaWithoutKeyword | verichain-credentials-main/src/pages/Recruiter.tsx:33 | a query without `gpa` carries no GPA phrase |
| RecruiterPage.NumberAt | verichain-credentials-main/src/pages/Recruiter.tsx:33 | definition: the greedy match of `\d+\.?\d*` at the start of the text; properties in `NumberAtIsNumber`, `NumberAtPrefix`, `NumberAtLongest` |
| RecruiterPage.SpanEnd | verichain-credentials-main/src/pages/Recruiter.tsx:33 | a run of one class of characters from a position ends inside the text, covers only characters of the class and stops at the first character outside it |
| RecruiterPage.GpaAt | verichain-credentials-main/src/pages/Recruiter.tsx:33 | definition: the capture of the pattern matched at the start of the text, one greedy pass over its parts; properties in `GpaAtIff`, `GpaAtValueIff` |
| RecruiterPage.NumberAtPrefix | verichain-credentials-main/src/pages/Recruiter.tsx:33 | the captured number is a prefix of the text it is read from |
| RecruiterPage.NumberAtLongest | verichain-credentials-main/src/pages/Recruiter.tsx:33 | no number at the start of the text is longer than the captured one: `\d+\.?\d*` is matched greedily |
| RecruiterPage.GpaAtMatches | verichain-credentials-main/src/pages/Recruiter.tsx:33 | a capture comes with positions where `gpa`, white space, one or more comparison signs and white space end, and the capture, a number, starts at the last of them |
| RecruiterPage.MatchGpaAt | verichain-credentials-main/src/pages/Recruiter.tsx:33 | wherever `gpa`, white space, comparison signs, white space and a number follow one another at the start of the text, there is a capture, read from the position where that number starts |
| RecruiterPage.GpaAtIff | verichain-credentials-main/src/pages/Recruiter.tsx:33 | there is a capture at the start of the text exactly when the pattern matches there |
| RecruiterPage.GpaAtLongest | verichain-credentials-main/src/pages/Recruiter.tsx:33 | whenever the pattern matches with some number, the capture is at least as long |
| RecruiterPage.GpaAtOutdoes | verichain-credentials-main/src/pages/Recruiter.tsx:33 | the capture is at least as long as every number that completes a match |
| RecruiterPage.GpaAtOfLength | verichain-credentials-main/src/pages/Recruiter.tsx:33 | a number that completes a match and is as long as the capture is the capture |
| RecruiterPage.GpaAtValueIff | verichain-credentials-main/src/pages/Recruiter.tsx:33-34 | the capture is t exactly when t completes a match and no number completing a match is longer, so the threshold handed to `parseFloat` is the greedy one |
| RecruiterPage.NumberAtIsNumber | verichain-credentials-main/src/pages/Recruiter.tsx:33 | the number captured at a position is digits, then at most one point followed by digits |
| RecruiterPage.GpaTokenIsNumber | verichain-credentials-main/src/pages/Recruiter.tsx:33-34 | the captured threshold is digits, then at most one point followed by digits |
| RecruiterPage.GpaToken | verichain-credentials-main/src/pages/Recruiter.tsx:33 | definition: the capture at the leftmost position where the pattern matches; properties in `GpaTokenLeftmost`, `GpaTokenNone`, `GpaTokenIsNumber` |
| RecruiterPage.LeftmostFound | verichain-credentials-main/src/pages/Recruiter.tsx:33 | a leftmost search's result is the result at some position, and no earlier position gives one |
| RecruiterPage.LeftmostNone | verichain-credentials-main/src/pages/Recruiter.tsx:33 | a leftmost search finds nothing exactly when no position gives a result |
| RecruiterPage.GpaTokenLeftmost | verichain-credentials-main/src/pages/Recruiter.tsx:33 | the capture comes from the leftmost position where the pattern matches |
| RecruiterPage.GpaTokenNone | verichain-credentials-main/src/pages/Recruiter.tsx:33-34 | there is no threshold exactly when the pattern matches nowhere |
| RecruiterPage.LowerOccurs | verichain-credentials-main/src/pages/Recruiter.tsx:30 | an occurrence of a word in the query is an occurrence of its lower case in the lower-cased query |
| RecruiterPage.AnyCaseFires | verichain-credentials-main/src/pages/Recruiter.tsx:30-65 | a keyword typed in any mix of case fires its rule and adds its filter |
| RecruiterPage.PhysicsFiresComputer | verichain-credentials-main/src/pages/Recruiter.tsx:43 | "physics" adds the computer-major filter, because it contains "cs" |
| RecruiterPage.SubmitFiresMit | verichain-credentials-main/src/pages/Recruiter.tsx:55 | "submit" adds the MIT filter, because it contains "mit" |
| RecruiterPage.CandidateSearch.constructor | verichain-credentials-main/src/pages/Recruiter.tsx:12-14 | empty query, not searching, no candidates |
| RecruiterPage.CandidateSearch.SetQuery | verichain-credentials-main/src/pages/Recruiter.tsx:134 | the query becomes the typed text and nothing else changes |
| RecruiterPage.CandidateSearch.HandleSearch | verichain-credentials-main/src/pages/Recruiter.tsx:16-100 | a blank query changes nothing; a query error keeps the candidates; otherwise the candidates are the search results of the lower-cased query and the notice reports none or their count; the busy flag ends false |
| RecruiterPage.CandidateSearch.HandleClear | verichain-credentials-main/src/pages/Recruiter.tsx:102-105 | query and candidates emptied |

## Left out

- SHA-256 is a function parameter returning 32 bytes. Its compression function (FIPS 180-4) is not modelled, so collision resistance is an assumption. `AdminPage.SameHashIsCollision` states what a shared hash would imply.
- `JSON.parse` is a parameter. Number syntax, duplicate keys in pasted text (the last one wins in JavaScript) and parse errors other than "fails" are not modelled. Values are assumed to have distinct keys (`WellFormed`).
- Numbers are kept as their source token. `JSON.stringify` re-renders numbers, and that rendering is floating point.
- Object keys that are array indices (such as "1"), which JavaScript enumerates first in ascending numeric order, are not modelled. The six credential keys are not of that kind.
- `KeyOrder.Le`: keys are ordered by Unicode code point. JavaScript's default `sort` compares UTF-16 code units. The two orders differ only for characters outside the Basic Multilingual Plane.
- `Text.ToLower`: lower-cases the ASCII letters only. JavaScript's `toLowerCase` also maps other scripts. `ILIKE` is modelled the same way.
- `Serialize.StringObjectInjective`: proved only for objects of strings with the same keys in the same order, which is the case the credential needs. It is not proved for all JSON values.
- `parseFloat` and the `>=` on floats are the parameter `atLeast`. A GPA that does not parse (NaN) is whatever `atLeast` says.
- The order in which the database returns rows is not specified. `Select` keeps table order.
- Supabase calls (select, insert, the `extract-credential` function) are values and failure flags. `FileReader` and the network are not modelled.
- `AdminPage.Issuer.CompleteExtraction`: the extraction service's reply is taken as six strings or a failure. Its prompt and response parsing are not modelled.
- `handleSimulateExtraction` (`Admin.tsx:114-135`) fills the form with fixed demo data after a `setTimeout`. It is a demo path and is left out.
- `AdminPage.Issuer.HandleIssue`: a failure of `connectWallet`, of `simulateTransaction` or of the insert is one `IssueFailed` outcome. The address and transaction id are opaque strings. The slicing in `simulateTransaction` (`wallet.ts:53-66`) is not modelled.
- `isVerifying`, `isIssuing` and `isSearching` are only modelled at the start and end of each handler. The interleavings of asynchronous React updates are not modelled.
- Toast titles and descriptions are reduced to a notice value. `console.error` is not modelled.
- `Utf8`: lone surrogates cannot occur, because a Dafny `char` is a Unicode scalar value. So the replacement `TextEncoder` makes for them is not modelled.

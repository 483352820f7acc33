# User form schema

A Dafny model of `createUserFormSchema`, the validator and normaliser behind the
user form (`src/App.tsx:8-23`). A submission has three raw strings: name, email
and password. Validating it gives one of three results:

- the normalised data;
- a map from each failing field to the message shown under it;
- for a name the transform cannot handle, an exception that aborts the whole
  validation.

The model has three modules.

- `JsString` (`js_string.dfy`) models the JavaScript string built-ins the schema
  relies on:
  - `length`, which counts UTF-16 code units;
  - `trim`, with the ECMAScript WhiteSpace and LineTerminator characters;
  - `split` and `join` on a one-character separator;
  - ASCII case mapping;
  - the `Completion` of an expression that may throw a TypeError.
- `NameTransform` (`name_transform.dfy`) models the name transform. It trims the
  name, splits it at every space character, upper-cases the first character of
  each word, keeps the rest of the word, and joins the words with single spaces.
  It is compared with a reference definition, `CapitalizeInitials`, which
  upper-cases every character that starts a word. The lemmas characterise exactly
  when the transform throws: an all-white-space name, or two spaces in a row
  after trimming. They also give the shape of its output and prove that it is
  idempotent.
- `UserFormSchema` (`user_form_schema.dfy`) models the three field chains with
  their exact messages, and the resulting `Validate`.
  - Every check of a field runs in the order it is declared.
  - A transform runs only on a value that passed its checks.
  - The message shown under a field is its first issue.
  - The data is produced only when every field passes.
  - `Validate` is stated against reference definitions on the raw input:
    `Fails`, `FailingFields` and `Message`.

The email syntax check belongs to the validation library and is not visible in
the source. It is the function parameter `isEmail`, and every result about
emails holds for any such check.

Two facts about the code decide how the name transform can fail.

- The emptiness check at `src/App.tsx:10` runs on the raw string, so a name made
  only of spaces passes it and reaches the transform.
- `split(' ')` splits at the space character only and keeps empty words. An
  empty word has no first character, so upper-casing it
  (`src/App.tsx:13`) throws a TypeError. That exception aborts validation, and
  the model gives it the outcome `Crash` rather than an error message.

## Model

| member | source | states |
|---|---|---|
| `JsString.Utf16Length` | src/App.tsx:10 | The length the checks measure is in UTF-16 code units: between the number of characters and twice that, and equal to it exactly when every character lies in the Basic Multilingual Plane. |
| `JsString.Utf16LengthOfChar` | src/App.tsx:22 | A single character has one code unit inside the Basic Multilingual Plane and two outside it. |
| `JsString.Utf16LengthAppend` | src/App.tsx:22 | The code-unit length of a concatenation is the sum of the lengths; with `Utf16LengthOfChar` this fixes every string's length as the sum of its characters' code units. |
| `JsString.Trim` | src/App.tsx:12 | `trim()` leaves no white space at either end, and gives the empty string exactly when the input is all white space. |
| `JsString.TrimSurrounded` | src/App.tsx:12 | The trimmed string is a slice of the input with only white space before and after it. |
| `JsString.TrimOfTrimmed` | src/App.tsx:12 | A string without white space at either end is its own trim. |
| `JsString.Split` | src/App.tsx:12 | `split(' ')` always gives at least one word, and no word contains the separator. |
| `JsString.JoinSplit` | src/App.tsx:12-14 | Joining the words of a split with the separator gives back the string. |
| `JsString.Join` | src/App.tsx:14 | `join(' ')` of a non-empty list starts with the first word and has the words' total length plus one separator per gap; `JoinSplit` and `SplitJoin` tie it to `Split` as its inverse. |
| `JsString.SplitJoin` | src/App.tsx:12-14 | Splitting the join of a non-empty list of words that lack the separator gives back those words. |
| `JsString.SplitAtSeparator` | src/App.tsx:12 | Splitting distributes over an occurrence of the separator. |
| `JsString.ToUpperChar` | src/App.tsx:13 | A lower-case ASCII letter becomes the upper-case letter at the same place in the alphabet, every other character is unchanged, and the result is never a lower-case letter. |
| `JsString.ToLowerChar` | src/App.tsx:20 | An upper-case ASCII letter becomes the lower-case letter at the same place in the alphabet, every other character is unchanged, and upper-casing the result gives the same as upper-casing the original. |
| `JsString.ToLowerCase` | src/App.tsx:20 | `toLowerCase()` preserves the length, leaves no upper-case letter, and changes each character only in its case. |
| `JsString.LowerCaseIdempotent` | src/App.tsx:20 | Lower-casing twice is the same as lower-casing once. |
| `NameTransform.CapitalizeWord` | src/App.tsx:13 | Capitalising a word throws exactly when the word is empty. Otherwise the length and everything after the first character are kept, the first character is no longer a lower-case letter and changes only if it was one, and the word contains a space exactly when the original did. |
| `NameTransform.CapitalizeWords` | src/App.tsx:12-14 | The `map` throws exactly when some word is empty. Otherwise it keeps the number of words and capitalises each one. |
| `NameTransform.CapitalizeName` | src/App.tsx:11-14 | The transform throws exactly when the trimmed name splits into an empty word. Otherwise its result is the reference definition on the trimmed name: every character that starts a word is upper-cased, and the others are kept. |
| `NameTransform.CapitalizeInitialsIdempotent` | src/App.tsx:12-14 | The reference definition applied twice equals the reference definition applied once. |
| `NameTransform.CapitalizeInitialsKeepsSpaces` | src/App.tsx:12-14 | The reference definition keeps every space in place and adds none. |
| `NameTransform.CapitalizeInitialsTrimmed` | src/App.tsx:12-14 | On a trimmed string with single spaces between non-empty words, the reference definition gives a string of the same kind. |
| `NameTransform.WellSpacedIff` | src/App.tsx:12-13 | A string splits on spaces into non-empty words only, exactly when it is non-empty, neither starts nor ends with a space, and has no two spaces in a row. |
| `NameTransform.NameTransformThrows` | src/App.tsx:10-13 | The transform throws exactly when the name is all white space, or has two spaces in a row once trimmed. |
| `NameTransform.NameTransformShape` | src/App.tsx:11-14 | When the trimmed name splits into non-empty words, the result has the trimmed name's length and word count, is its own words joined by single spaces, and each word has its first character upper-cased and the rest unchanged. |
| `NameTransform.NameTransformIdempotent` | src/App.tsx:12-14 | Applying the transform to its own result returns that result. |
| `NameTransform.NameTransformOutput` | src/App.tsx:11-14 | A transformed name is trimmed and has single spaces between non-empty words, and no word starts with a lower-case letter. |
| `UserFormSchema.ParseName` | src/App.tsx:9-16 | A name is rejected with "Nome obrigatório" exactly when it is empty, and the transform is then skipped. A non-empty name throws exactly when its trimmed form splits into an empty word. Otherwise the name is accepted as the reference capitalisation of its trim. |
| `UserFormSchema.ParseEmail` | src/App.tsx:17-20 | An email never throws. It is accepted exactly when it is non-empty and passes the syntax check, and the value is then the lower-cased input. When rejected, the first message is the required one for an empty email and the format one otherwise. The format message is present exactly when the syntax check fails. |
| `UserFormSchema.ParsePassword` | src/App.tsx:21-22 | A password never throws. It is accepted unchanged exactly when it has at least 6 code units, and is otherwise rejected with the single too-short message. |
| `UserFormSchema.ParseField` | src/App.tsx:8-23 | A rejected field always carries at least one message. |
| `UserFormSchema.Errors` | src/App.tsx:58-66 | The error map the form displays holds the first issue of each rejected field. Its keys are exactly the failing fields, and each entry is that field's reference message. |
| `UserFormSchema.Validate` | src/App.tsx:8-23 | A submission crashes exactly when the name is non-empty but its trim splits into an empty word. Otherwise it is valid exactly when no field fails. Valid data is the capitalised trimmed name, the lower-cased email and the password. An error map is non-empty, its keys are exactly the failing fields, and each entry is that field's first message. |
| `UserFormSchema.EmptyNameRejected` | src/App.tsx:9-11 | An empty name makes the submission invalid with "Nome obrigatório" under the name, although the transform would throw on it. |
| `UserFormSchema.ErrorDependsOnOwnField` | src/App.tsx:58-66 | A field's entry in the error map depends only on that field's raw value: a field fixed on a later submission loses its entry, whatever the other fields hold. |
| `UserFormSchema.ValidDataInvariant` | src/App.tsx:8-23 | Accepted data has: a trimmed name with single spaces between non-empty words, none of which starts with a lower-case letter; an email that passed the syntax check and has no upper-case letter; a password of at least 6 code units. |
| `UserFormSchema.RevalidateNormalised` | src/App.tsx:8-23 | Submitting the normalised data again gives the same outcome, provided the syntax check accepts the lower-cased email. |
| `UserFormSchema.PasswordOfBmpCharacters` | src/App.tsx:21-22 | A password of Basic Multilingual Plane characters passes exactly when it has at least 6 characters. |
| `UserFormSchema.BlankNameCrashes` | src/App.tsx:10-13 | A non-empty all-white-space name passes the required check and then makes the whole submission crash. |
| `UserFormSchema.DoubleSpacedNameCrashes` | src/App.tsx:12-13 | A name with two spaces in a row after trimming makes the whole submission crash. |
| `UserFormSchema.AcceptedSubmission` | src/App.tsx:8-23 | "joão silva ", an accepted "JOAO@Example.COM" and "123456" give "João Silva", "joao@example.com" and "123456". |
| `UserFormSchema.EmptyNameOnlyError` | src/App.tsx:9-10 | An empty name with an accepted email and password gives only the name's error. |
| `UserFormSchema.EmailAndPasswordErrors` | src/App.tsx:17-22 | "Ana", a malformed email and a five-character password give the format message and the too-short message, and nothing for the name. |
| `UserFormSchema.OnlyPasswordErrorAfterFix` | src/App.tsx:58-66 | After the email is fixed on the same submission, only the password's error remains. |

## Left out

- React rendering, `useState`, and the `useForm`/`zodResolver`/`register`/`handleSubmit` wiring (`src/App.tsx:28-35`, `src/App.tsx:53-83`) are UI framework code. The model keeps only what that wiring does with the schema: it validates on submit, rethrows an exception from a transform, and shows the first message of each failing field.
- The `FileReader` image preview (`src/App.tsx:41-51`) is asynchronous browser I/O and is not part of the schema.
- The `JSON.stringify` display of the data (`src/App.tsx:36-39`) only serialises the data for display.
- The email syntax regular expression of the validation library is not visible. It is the parameter `isEmail`, so the email results hold for any syntax check.
- `JsString.ToUpperChar`: models `toLocaleUpperCase` on ASCII letters only, leaving every other character unchanged. Locale-sensitive and full Unicode case mapping, which can change a string's length (such as 'ß' to "SS"), is not modelled.
- `JsString.ToLowerCase`: models `toLowerCase` on ASCII letters only, for the same reason.
- `UserFormSchema.RevalidateNormalised`: assumes that the syntax check also accepts the lower-cased email. The source promises nothing about the syntax check, so the round trip is stated under that assumption.
- Strings are sequences of Unicode scalar values, so lone surrogates, which a JavaScript string can hold, are not modelled. `Utf16Length` counts the code units of scalar values.
- The App.css stylesheet is presentation only.

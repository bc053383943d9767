# Contact manager — a verified model of the record rules and list operations

This project models the core of a single-user command-line contact book
(`contact_manager.py`). A contact is a record with three fields: `Full Name`,
`phone` and `email`. The session keeps contacts in one ordered list, in
insertion order. The model covers:

- the validation rules: the phone regex `^\(\d{3}\)\d{3}-\d{4}$`, the email
  test "contains `@` and contains `.`", and the name normal form
  `strip().title()`;
- the four list operations: add (append), search (case-insensitive
  substring), remove (first exact-name match) and update (phone of the first
  exact-name match).

Modules, one per layer:

- `Wrappers` (`wrappers.dfy`): `Option`.
- `PyStr` (`py_str.dfy`): Python's `str.strip`, `str.lower`, `str.title` and
  the substring test `needle in hay`, over ASCII.
- `Validation` (`validation.dfy`): the phone regex as a small anchored
  pattern matcher, its 13-position characterisation, the email test, and the
  name and search keys.
- `Contacts` (`contacts.dfy`): the `Contact` datatype and the list operations
  as functions (`NewContact`, `Matching`, `FirstIndex`, `RemoveFirst`,
  `ListRemove`, `UpdatePhoneFirst`), with the lemmas about them.
- `Store` (`contact_store.dfy`): `ContactStore`, a class whose `contacts`
  field is the list that the source mutates in place. Its methods loop over
  the list as the source does. Each method is proved against the functions
  of `Contacts`.

Interactive input is replaced by parameters. Each answer the user would type
(name, phone, email, search term) is a raw string argument. The model applies
the same `strip`/`title`/`lower` as the source. The re-prompt loops become
results: `Add` returns `false` and `UpdatePhone` returns `InvalidPhone`,
each leaving the list unchanged, where the source would ask again. Printed
messages become return values: `Search` returns the reported contacts and the
`found` flag, and `Remove` returns whether a contact was removed.

Modelling choices:

- Python's `\d` also matches non-ASCII digits. Here a digit is `'0'..'9'`.
- Python's `$` also matches just before a final newline, and `IsValidPhone`
  keeps that: `"(555)123-4567\n"` is accepted. `PhoneRegex` proves that the
  regex accepts exactly the 13-position format, optionally followed by one
  `\n`. `StrippedPhone` proves that on stripped input (the only input the
  source passes it) the regex is exactly the 13-position check.
- Case mapping and whitespace are ASCII only. Whitespace is what Python's
  `str.isspace` accepts on ASCII: space, `\t`, `\n`, `\v`, `\f`, `\r` and
  `\x1c`–`\x1f`.
- Names follow the code's `str.title()`. A cased character that follows a
  cased character is lower-cased, and every other character is upper-cased, so
  `"o'neil"` becomes `"O'Neil"` and `"1st"` becomes `"1St"`. Capitalising
  each whitespace-separated word instead would give `"O'neil"`.
- Rows read at start-up are appended without validation
  (contact_manager.py:44-45), so `AllValid` is not an invariant of the store:
  its constructor takes any list of loaded records. The methods promise
  instead that they write only valid values, and that they keep `AllValid`
  when the list already had it.
- `remove_contact` deletes with `contacts.remove(contact)`, which removes the
  first element *equal* to the matched dictionary. `ListRemove` models that
  call. `ListRemoveFirstMatch` proves that it deletes exactly the matched
  position, because an equal earlier element would have matched first.

## Model

| member | source | states |
|---|---|---|
| `PyStr.Lower` | contact_manager.py:115 | `str.lower()`: every ASCII upper-case letter mapped to its lower-case form, every other character kept |
| `PyStr.Title` | contact_manager.py:103 | `str.title()`: starting with no cased predecessor, a cased character after a cased one is lower-cased, every other character upper-cased |
| `PyStr.Contains` | contact_manager.py:157 | `needle in hay`: the needle occurs as a contiguous slice at some position of the haystack |
| `PyStr.Strip` | contact_manager.py:103-104 | the stripped string has no whitespace at either end and is no longer than the input |
| `PyStr.StripSlice` | contact_manager.py:103-104 | `strip()` returns a contiguous slice of the input with only whitespace cut away on each side |
| `PyStr.StripUnique` | contact_manager.py:103-104 | a slice that is trimmed and has only whitespace around it is exactly what `strip()` returns |
| `PyStr.StripIdempotent` | contact_manager.py:103-104 | stripping an already stripped string changes nothing |
| `PyStr.TitleAt` | contact_manager.py:103 | each character of `title()` is upper-cased at the start or after an uncased character, and lower-cased after a cased one; the length is kept |
| `PyStr.LowerTitle` | contact_manager.py:103 | lower-casing a title-cased string gives the lower-cased original |
| `PyStr.TitleLower` | contact_manager.py:177 | `title()` does not depend on the case the input was typed in |
| `PyStr.TitleIdempotent` | contact_manager.py:103 | title-casing twice equals title-casing once |
| `PyStr.LowerStrip` | contact_manager.py:154 | `lower()` and `strip()` commute |
| `PyStr.TitleKeepsTrimmed` | contact_manager.py:103 | title-casing a trimmed string leaves it trimmed |
| `PyStr.ContainsEmpty` | contact_manager.py:157 | the empty string occurs in every string |
| `PyStr.ContainsSelf` | contact_manager.py:157 | every string contains itself |
| `Validation.IsValidPhone` | contact_manager.py:84-85 | the anchored match of `PhonePattern` (`\(\d{3}\)\d{3}-\d{4}`); Python's `$` also accepts one final newline |
| `Validation.IsValidEmail` | contact_manager.py:111 | the email holds at least one `@` and at least one `.`, anywhere |
| `Validation.NormalizeName` | contact_manager.py:103 | `strip().title()`: the stored form of a name and the key of remove (line 177) and update (line 201) |
| `Validation.SearchKey` | contact_manager.py:154 | `strip().lower()`: the key search looks for |
| `Validation.MatchesAnchoredIff` | contact_manager.py:84-85 | an anchored fixed-width pattern matches iff the string has the pattern's length, or that length plus a final newline, and every position matches its atom |
| `Validation.PhoneRegex` | contact_manager.py:84-85 | the phone regex accepts exactly strings of 13 characters with `(` at 0, `)` at 4, `-` at 8 and digits elsewhere, optionally followed by one newline |
| `Validation.StrippedPhone` | contact_manager.py:104-108 | on a stripped answer the phone check is exactly the 13-position format |
| `Validation.PhoneLeadingRejected` | contact_manager.py:84-85 | any character in front of a well-formed phone makes it invalid |
| `Validation.PhoneTrailing` | contact_manager.py:84-85 | a character after a well-formed phone makes it invalid unless it is a newline |
| `Validation.PhoneExampleAccepted` | contact_manager.py:74-85 | `(555)123-4567` is accepted |
| `Validation.PhoneExampleNoParentheses` | contact_manager.py:84-85 | `555-123-4567` is rejected |
| `Validation.PhoneExampleNoDash` | contact_manager.py:84-85 | `(555)1234567` is rejected |
| `Validation.LowerEmail` | contact_manager.py:110-115 | the lower-cased email is valid iff the checked email is, so storing `email.lower()` cannot break validity |
| `Validation.EmailExamples` | contact_manager.py:111 | `.@` and `a@b.com` pass, `noatsign.com` and `user@localhost` fail: only the presence of both characters counts |
| `Validation.NormalizeNameIgnoresCase` | contact_manager.py:177-179 | two names that differ only in letter case normalise to the same lookup key |
| `Validation.SearchKeyIgnoresCase` | contact_manager.py:154 | two search terms that differ only in letter case give the same search key |
| `Validation.BlankSearchKey` | contact_manager.py:154 | an all-whitespace search term strips and lower-cases to the empty key |
| `Validation.NormalizeNameIdempotent` | contact_manager.py:103 | a stored name is already in normal form, so looking it up by its stored spelling finds it |
| `Validation.SearchKeyOfName` | contact_manager.py:154-157 | the lower-cased normal form of a name is its search key |
| `Validation.TitleExampleApostrophe` | contact_manager.py:103 | `o'neil` title-cases to `O'Neil` |
| `Validation.NormalizeNameExample` | contact_manager.py:103 | `  john   SMITH ` normalises to `John   Smith`, keeping inner spacing |
| `Contacts.FieldNames` | contact_manager.py:66 | the column header of the saved file, in order: `Full Name`, `phone`, `email` |
| `Contacts.NewContact` | contact_manager.py:103-115 | a contact is built iff the stripped phone passes the regex and the stripped email has `@` and `.`; the built contact is valid and holds the normal-form name, the stripped phone and the lower-cased stripped email |
| `Contacts.AppendValid` | contact_manager.py:115-116 | appending a valid contact keeps every contact valid |
| `Contacts.NameMatches` | contact_manager.py:157 | the lower-cased full name contains the search key |
| `Contacts.Matching` | contact_manager.py:154-161 | search reports no more contacts than the list holds, and each reported name contains the term |
| `Contacts.MatchingPositions` | contact_manager.py:154-161 | search reports exactly the contacts whose lower-cased name contains the term, at strictly increasing list positions |
| `Contacts.MatchingEmptyTerm` | contact_manager.py:154-157 | the empty search key reports every contact |
| `Contacts.MatchingBlankTerm` | contact_manager.py:154-157 | a raw term made only of whitespace (or nothing) strips to the empty key and reports every contact |
| `Contacts.MatchingNone` | contact_manager.py:155-161 | nothing is reported iff no name contains the term, which is when "not found" is printed |
| `Contacts.SearchExample` | contact_manager.py:154-158 | searching ` JO ` reports both John Smith and Jane Johnson, in order, and not Bob Brown |
| `Contacts.FirstIndex` | contact_manager.py:178-179 | the index found holds the key and no earlier contact does; no index means no contact holds the key |
| `Contacts.FoundByNameIsSearchable` | contact_manager.py:154-179 | the contact that remove or update would find under a name is also reported by a search for that name |
| `Contacts.ListRemove` | contact_manager.py:180 | `list.remove` shortens the list by one |
| `Contacts.ListRemoveAt` | contact_manager.py:180 | `list.remove` of a value with no equal element before position i deletes exactly position i |
| `Contacts.ListRemoveFirstMatch` | contact_manager.py:178-182 | removing the matched contact by value deletes exactly the first position whose name matches |
| `Contacts.RemoveFirst` | contact_manager.py:177-183 | the list with the element at the first exact-name match deleted, or the list itself when no name matches |
| `Contacts.RemoveFirstSpec` | contact_manager.py:177-183 | without a match the list is unchanged; with one, exactly the first match is deleted, the rest keep their order, the multiset loses that one contact and later namesakes remain |
| `Contacts.RemoveFirstValid` | contact_manager.py:180 | removal keeps every contact valid |
| `Contacts.RemoveDuplicateExample` | contact_manager.py:178-182 | of two contacts named John Smith, the first entered is removed and the second stays |
| `Contacts.UpdatePhoneFirst` | contact_manager.py:201-211 | only the first exact-name match can change, it gets the new phone, and every name and email stays as it was |
| `Contacts.UpdatePhoneValid` | contact_manager.py:205-208 | writing a valid phone keeps every contact valid |
| `Store.ContactStore.constructor` | contact_manager.py:40-48 | the session starts with the loaded rows, unvalidated |
| `Store.ContactStore.Add` | contact_manager.py:103-117 | appends exactly the built contact at the end iff phone and email are acceptable, otherwise leaves the list alone; the appended contact is valid and validity of the list is kept |
| `Store.ContactStore.Search` | contact_manager.py:154-161 | the scan reports the matching contacts in order and sets `found` iff some name contains the term |
| `Store.ContactStore.Remove` | contact_manager.py:177-183 | the list becomes the list with its first exact-name match deleted; the result says whether there was one |
| `Store.ContactStore.UpdatePhone` | contact_manager.py:201-211 | not found leaves the list alone; a match with an invalid phone leaves it alone; otherwise only the first match's phone becomes the stripped new phone; validity is kept |

## Left out

- `load_contacts` and `save_contacts` (contact_manager.py:22-71) are file I/O. Their parsing and quoting are done by Python's `csv` module, which is not part of this model. Only the header order survives, as the constant `Contacts.FieldNames`.
- `view_contacts` (contact_manager.py:120-138) only prints padded columns.
- The menu loop of `main.py` (integer parsing, `ValueError`, dispatch) is interactive I/O.
- The re-prompt loops (contact_manager.py:106-108, 111-113, 205-207) are not modelled as loops. An invalid answer gives a result that leaves the list unchanged.
- Printed messages are not modelled. What they report is returned instead.
- Unicode: case mappings, whitespace and `\d` are restricted to ASCII.
- Loaded rows are assumed to hold all three fields as strings. The exceptions that search, remove and update raise on a short or mis-headed row (a `None` field at contact_manager.py:157, a missing key at lines 157, 179 and 203) are not modelled, because the rows come from Python's `csv` reader, which is outside this model.
- Contacts are values, not shared dictionaries. The source mutates the matched dictionary in place. No other reference to it exists, so only the list's new contents are modelled.

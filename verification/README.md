# Consent sections and admin form handling (beiwe-backend site-admin pages)

This project models the parts of the site-admin pages of the Beiwe research
platform backend (`pages/system_admin_pages.py`) that are real string and map
logic, not web or database glue:

- **Consent-section unflattening** (`unflatten_consent_sections`). The
  device-settings form sends consent text as flat fields named
  `prefix.label.content_type`. The page regroups them into a two-level map
  `label -> (content_type -> text)` before storing it. Every key is split on
  `.`. A key that does not split into exactly three parts makes the tuple
  unpack raise, so the whole submission is rejected. The first segment is
  discarded. Entries that share a label merge into one inner map, and a
  later entry with the same label and content type overwrites an earlier one.
- **Device-settings partition**. The submitted values are split into plain
  settings and consent fields by whether the field name starts with
  `consent_section`.
- **Username sanitisation** in `create_new_researcher`. Every
  non-alphanumeric character is dropped from `admin_id`, and order is kept.
- **The `is_test` flag** in `create_study`. It is true exactly when the field
  equals the lower-case string `true`.

Files:

- `pystr.dfy` (module `PyStr`): Python's `str.split` with an explicit
  separator, its inverse `join`, `startswith` and `isalnum`. Strings are
  sequences of characters.
- `consent_sections.dfy` (module `ConsentSections`): key parsing, the
  `defaultdict` update, the transform as a recursive fold
  (`Unflatten`), the transform as the page runs it (a loop,
  `UnflattenConsentSections`), and the lemmas that characterise the result.
- `consent_order.dfy` (module `ConsentOrder`): how the dict's iteration
  order affects the result.
- `consent_examples.dfy` (module `ConsentExamples`): worked cases, stated
  over arbitrary dot-free segments.
- `admin_forms.dfy` (module `AdminForms`): the partition, the username and
  the `is_test` flag.

The submitted dict is modelled as the sequence of its (key, value) pairs in
iteration order. `ConsentOrder.Enumerates` ties such a sequence to the dict
it lists. A raised exception is modelled as the result
`MalformedKey(key)`. Python's `ValueError` does not name the key; `MalformedKey`
records the first malformed key in iteration order, where the loop raises.

Three facts about the code that the model makes explicit:

- Segments may be empty: `"a..b"` has label `""` and content type `"b"`
  (`ConsentExamples.EmptySegmentsAccepted`).
- Whether the transform fails does not depend on the dict's iteration order
  (`ConsentOrder.OutcomeIndependentOfOrder`). When it succeeds, the grouping
  depends on order only when two keys differ in their first segment alone
  (`ConsentOrder.ResultIndependentOfOrder`,
  `ConsentOrder.CollidingPrefixesDependOnOrder`): the key visited last wins.
  When it fails, the loop raises at the first malformed key in the order
  visited, and `MalformedKey` records that key
  (`ConsentSections.UnflattenFirstMalformed`), so different orders may stop
  at different malformed keys.
- Last write wins, shown with two keys that differ only in their prefix
  (`ConsentOrder.LaterCollidingKeyWins`), since a dict cannot hold the same
  key twice.

## Model

| member | source | states |
|---|---|---|
| `PyStr.IsAlnum` | pages/system_admin_pages.py:68 | ASCII-only stand-in for `unicode.isalnum`: holds exactly for the code points of `0`-`9`, `A`-`Z` and `a`-`z` |
| `PyStr.StartsWith` | pages/system_admin_pages.py:210-211 | `startswith(prefix)` holds exactly when the string is at least as long as the prefix and agrees with it position by position; then the string is the prefix followed by the rest |
| `PyStr.Split` | pages/system_admin_pages.py:228 | `split` always yields at least one part (its further properties are the lemmas below) |
| `PyStr.SplitCount` | pages/system_admin_pages.py:228 | `key.split(".")` yields one more part than there are dots, so exactly three parts means exactly two dots |
| `PyStr.SplitPartsFree` | pages/system_admin_pages.py:228 | no part of a split holds the separator |
| `PyStr.SplitJoinsBack` | pages/system_admin_pages.py:228 | joining the parts with the separator gives back the key |
| `PyStr.SplitJoin` | pages/system_admin_pages.py:228 | splitting separator-free parts joined by the separator gives back those parts |
| `ConsentSections.ParseKey` | pages/system_admin_pages.py:228 | the unpack `_, label, content_type = key.split(".")` succeeds exactly when the key has two dots |
| `ConsentSections.ParseKeyCompose` | pages/system_admin_pages.py:228 | a key `p.l.c` built from dot-free segments yields label `l` and content type `c`, whatever `p` is |
| `ConsentSections.ParseKeyDecompose` | pages/system_admin_pages.py:228 | every key that parses is a dot-free prefix, a dot, the label, a dot and the content type, and label and content type are dot-free |
| `ConsentSections.Insert` | pages/system_admin_pages.py:226-230 | the `defaultdict(dict)` write adds the label if it is new, adds or overwrites one content type in that label's inner map, keeps that map's other entries and leaves every other label unchanged |
| `ConsentSections.Unflatten` | pages/system_admin_pages.py:221-231 | when the transform fails, the key `MalformedKey` records is one of the submitted keys and does not split into three parts |
| `ConsentSections.UnflattenConsentSections` | pages/system_admin_pages.py:221-231 | the loop over the items returns the same result as the fold `Unflatten`: the grouped sections, or the first malformed key |
| `ConsentSections.UnflattenSnoc` | pages/system_admin_pages.py:227-230 | the fold's step equation, one iteration of the loop: an earlier error is kept, a malformed key makes the unpack raise (recorded as `MalformedKey`), otherwise the item is inserted |
| `ConsentSections.UnflattenEmpty` | pages/system_admin_pages.py:226-231 | an empty submission gives an empty grouping |
| `ConsentSections.UnflattenOkIffWellFormed` | pages/system_admin_pages.py:227-228 | the transform succeeds exactly when every key splits into three parts |
| `ConsentSections.UnflattenFirstMalformed` | pages/system_admin_pages.py:227-228 | if some key is malformed, the loop raises at the first malformed key in iteration order, which `MalformedKey` records, with no partial result |
| `ConsentSections.UnflattenMentions` | pages/system_admin_pages.py:227-230 | `result[l][c]` exists exactly when some key splits as `_.l.c` |
| `ConsentSections.UnflattenLastWrite` | pages/system_admin_pages.py:227-230 | `result[l][c]` is the value of the last item whose key splits as `_.l.c` |
| `ConsentSections.UnflattenIgnoresPrefix` | pages/system_admin_pages.py:228 | submissions that differ only in their keys' first segments give the same grouping |
| `ConsentSections.UnflattenSectionsNonEmpty` | pages/system_admin_pages.py:226-231 | no label of the result has an empty inner map |
| `ConsentSections.UnflattenContents` | pages/system_admin_pages.py:226-231 | the whole result: exactly the (label, content type) pairs the keys split to, each with the value written last |
| `ConsentSections.UnflattenLabels` | pages/system_admin_pages.py:226-231 | the outer keys of the result are exactly the middle segments of the input keys |
| `ConsentOrder.OutcomeIndependentOfOrder` | pages/system_admin_pages.py:227-228 | whether the transform fails does not depend on the dict's iteration order |
| `ConsentOrder.EntryFromDict` | pages/system_admin_pages.py:227-230 | for any iteration order, `result[l][c]` exists exactly when some dict key splits as `_.l.c`, and it holds the value of such a key |
| `ConsentOrder.ResultIndependentOfOrder` | pages/system_admin_pages.py:227-230 | when no two keys split to the same label and content type, every iteration order gives the same grouping |
| `ConsentOrder.LaterCollidingKeyWins` | pages/system_admin_pages.py:228-230 | of two keys with the same label and content type, the value of the later one is kept |
| `ConsentOrder.CollidingPrefixesDependOnOrder` | pages/system_admin_pages.py:227-230 | a dict with two keys that differ only in their first segment is listed in both orders; each order keeps the value visited last, so with different values the two orders give different groupings |
| `ConsentExamples.SameLabelMerges` | pages/system_admin_pages.py:226-230 | `{"x.a.text", "x.a.more"}` gives `a -> {text, more}`: same-label entries merge and do not replace each other |
| `ConsentExamples.TwoLabelsGrouped` | pages/system_admin_pages.py:221-231 | two texts under one label and one under another are grouped under the two labels |
| `ConsentExamples.EmptySegmentsAccepted` | pages/system_admin_pages.py:228 | `"a..b"` splits into three parts and gives label `""` |
| `ConsentExamples.TwoSegmentKeyRejected` | pages/system_admin_pages.py:228 | a key with one dot makes the unpack raise; `MalformedKey` records it |
| `ConsentExamples.FourSegmentKeyRejected` | pages/system_admin_pages.py:228 | a key with three dots makes the unpack raise; `MalformedKey` records it |
| `ConsentExamples.MalformedKeyDiscardsEarlierWork` | pages/system_admin_pages.py:227-231 | a malformed key after a well-formed one still rejects the whole submission |
| `AdminForms.SettingsFields` | pages/system_admin_pages.py:210 | `params` holds exactly the submitted fields whose name does not start with `consent_section`, each with its submitted value |
| `AdminForms.ConsentFields` | pages/system_admin_pages.py:211 | `consent_sections` holds exactly the submitted fields whose name starts with `consent_section`, each with its submitted value |
| `AdminForms.PartitionExact` | pages/system_admin_pages.py:210-211 | every submitted field lands in exactly one of `params` and `consent_sections`, chosen by `startswith("consent_section")`, with its value unchanged |
| `AdminForms.PartitionUnique` | pages/system_admin_pages.py:210-211 | any two maps with those properties are exactly the two comprehensions |
| `AdminForms.ConsentSubmissionAccepted` | pages/system_admin_pages.py:211-216 | the transform of the consent fields succeeds exactly when every field whose name starts with `consent_section` has two dots, whatever the iteration order |
| `AdminForms.Sanitize` | pages/system_admin_pages.py:68 | the sanitised username holds only alphanumeric characters and is no longer than the input |
| `AdminForms.SanitizeKeepsEveryAlnum` | pages/system_admin_pages.py:68 | every alphanumeric character of the input occurs in the username as often as in the input, and no other character occurs in it |
| `AdminForms.SanitizeIsSubsequence` | pages/system_admin_pages.py:68 | the username is a subsequence of the input: order is kept |
| `AdminForms.SanitizeKeepsAlnum` | pages/system_admin_pages.py:68 | an all-alphanumeric input is left as it is |
| `AdminForms.SanitizeIdempotent` | pages/system_admin_pages.py:68 | sanitising twice gives the same result as sanitising once |
| `AdminForms.SanitizeConcat` | pages/system_admin_pages.py:68 | sanitising distributes over concatenation, since each character is judged on its own |
| `AdminForms.NewResearcherUsername` | pages/system_admin_pages.py:68 | a missing `admin_id` gives the empty username; otherwise the username is a subsequence of `admin_id` made of alphanumeric characters only, and it keeps every alphanumeric character of `admin_id` as often as it occurs there |
| `AdminForms.IsTestStudy` | pages/system_admin_pages.py:166 | `is_test` is true exactly when the field is present and equals `"true"` |
| `AdminForms.IsTestOnlyLowercaseTrue` | pages/system_admin_pages.py:166 | `"True"`, `"TRUE"`, `"1"`, `"on"`, `"false"` and `""` do not mark a test study |

## Left out

- Flask routing, templates, redirects, `flash`, `abort(403)` and sessions: web plumbing with no logic of its own.
- The Django ORM (`Study.objects.get`, `StudyField.objects.get_or_create`, `delete`, `settings.update`, `mark_deleted`, `Researcher.create_with_password`) and the `ProtectedError`/`ValidationError` handling: persistence.
- The handlers that only query and render (`manage_researchers`, `edit_researcher`, `manage_studies`, `edit_study`, `study_fields`, `delete_field`, `delete_study`): no logic beyond request guards (such as the `confirmation == 'true'` check in `delete_study`) and database calls.
- The authentication decorators, `researcher_is_site_admin` and `get_researcher_allowed_studies`: their source is not part of this model.
- `checkbox_to_boolean`, `string_to_int` (applied to `params` at lines 212-213) and `copy_existing_study_if_asked_to`: their source is not part of this model.
- `json.dumps` of the grouped sections (line 216): the nested map is the output; JSON encoding is not modelled.
- The debug `print` at line 229: an output side effect. Under Python 2 it can also raise `UnicodeEncodeError` when the prefix, label or content type holds non-ASCII characters and stdout is not UTF-8; the model treats such keys as accepted.
- A nested-to-flat inverse of the transform: the code has no such operation.
- Multi-valued form fields: `request.values` merges query and form values and may hold several values per name; the model takes the single value per name that `iteritems()` yields.
- `PyStr.IsAlnum`, `AdminForms.Sanitize`, `AdminForms.NewResearcherUsername`: `isalnum` is modelled for ASCII letters and digits only. The form values at line 68 are unicode, and `unicode.isalnum` also accepts non-ASCII letters and digits (`é`, `ß`, `٣`), which the model drops: for `admin_id = "José"` the page stores `José` and the model `Jos`. Python's Unicode character database is not part of this model.
- `data/constants.py`: static configuration (bucket name, key length, file-type lists) with no behaviour.

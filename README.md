# HTTP security header analysis, modelled in Dafny

This project models the header analysis of a small HTTP security checker. The
checker fetches one response from a target it is authorised to test. It then
classifies nine security-relevant response headers:

- `strict-transport-security` (HSTS);
- `content-security-policy`;
- `x-frame-options`;
- `x-content-type-options`;
- `referrer-policy`;
- `permissions-policy`;
- `x-xss-protection`;
- `expect-ct`;
- `public-key-pins`.

The analysis takes a map from lower-cased header names to values. It returns a
map from each checklist name to a status.

- `strings.dfy` (module `Strings`): ASCII lower-casing (`Lower`) and substring
  search (`Contains`). `Contains` models Python's `in` on strings. It is tied to
  an index-based reference definition, `OccursAt`.
- `analyzer.dfy` (module `SecurityHeaders`): the checklist `SecHeaders`, the
  five status strings, and the method `Analyze`. The method follows the source
  step by step. First `PresencePass` fills the findings map in a loop over the
  checklist. Then the values of `x-content-type-options`, `x-frame-options` and
  `strict-transport-security` are checked and their entries overwritten.
  `Analyze` is proved equal to `Expected`, a specification written as one
  decision table per header (`ContentTypeStatus`, `FrameStatus`, `HstsStatus`,
  `PresenceStatus`). The lemmas state the properties of `Expected`.

The header map is a Dafny `map` value, so the analysis cannot modify its input.
The model is total: `Analyze` has no precondition and classifies every input,
including the empty map.

Behaviour of the code worth noting:

- The docstring at `http_security_check.py:65` lists `"missing/invalid"` as a
  status, but the code never produces it. `FindingsStatuses` proves that no
  finding carries it.
- A checklist header that is present with an empty value is `"present"` after
  the presence pass. Only `x-content-type-options` and `x-frame-options` turn
  an empty value into `"missing"`. An empty HSTS value stays `"present"`.
- The checklist is the fixed nine-name list `SEC_HEADERS` of
  `http_security_check.py:16-26`; `analyze` takes no other input.

## Model

| member | source | states |
|---|---|---|
| SecurityHeaders.PresencePass | http_security_check.py:67-74 | The first pass gives every checklist name exactly one entry: "present" when the key is in the header map, "missing" otherwise. Its loop invariant covers the prefix of the checklist filled so far. |
| SecurityHeaders.Analyze | http_security_check.py:54-97 | The full two-pass analysis returns exactly the per-header decision table `Expected` for every header map. The map is built in place: first the presence pass, then overwrites for x-content-type-options, x-frame-options and HSTS. |
| SecurityHeaders.FindingsKeys | http_security_check.py:16-26 | The findings' key set is exactly the checklist, never more and never fewer. The findings have nine entries. |
| SecurityHeaders.ChecklistDistinct | http_security_check.py:16-26 | The nine checklist names are pairwise distinct. |
| SecurityHeaders.FindingsStatuses | http_security_check.py:65-95 | Every status is one of "present", "missing", "invalid", "present (no max-age)" or "present (disabled)". "missing/invalid" never occurs. |
| SecurityHeaders.EmptyHeadersAllMissing | http_security_check.py:70-95 | An empty header map makes every checklist entry "missing". |
| SecurityHeaders.PresenceOnlyHeaders | http_security_check.py:70-74 | A checklist header whose value is not validated is "present" iff its key exists, even with an empty value. Otherwise it is "missing". |
| SecurityHeaders.ContentTypeOptionsRule | http_security_check.py:77-81 | x-content-type-options is "present" iff its lower-cased value is exactly "nosniff" (no trimming). It is "missing" iff it is absent or empty, and "invalid" iff it is non-empty and not "nosniff". |
| SecurityHeaders.FrameOptionsRule | http_security_check.py:83-87 | x-frame-options is "present" iff its lower-cased value is "deny" or "sameorigin". It is "missing" iff it is absent or empty, and "invalid" iff it is any other non-empty value. |
| SecurityHeaders.HstsRule | http_security_check.py:89-95 | HSTS outcomes in this order: absent gives "missing"; empty gives "present"; no "max-age" gives "present (no max-age)"; "max-age=0" gives "present (disabled)"; otherwise "present". |
| SecurityHeaders.HstsZeroIsDisabled | http_security_check.py:92-95 | A value whose lower-cased form contains "max-age=0" is always "present (disabled)". The earlier "max-age" test cannot hide that outcome. |
| SecurityHeaders.HstsWithoutDashHasNoMaxAge | http_security_check.py:90-93 | In the analysis result, a non-empty HSTS value without a '-' character, such as "includeSubDomains", is "present (no max-age)". |
| SecurityHeaders.OnlyChecklistMatters | http_security_check.py:70-90 | Two header maps that agree on the checklist names, on both presence and value, give the same findings. |
| SecurityHeaders.ExtraKeysIgnored | http_security_check.py:70-90 | Removing keys that are not on the checklist does not change the findings. |
| SecurityHeaders.Get | http_security_check.py:77 | `headers.get(name, "")` is empty exactly when the header is absent or its value is empty, so the analysis cannot tell those two cases apart. A non-empty result means the header is present. |
| SecurityHeaders.FrameDenyUpperCase | http_security_check.py:83-84 | In the analysis result, "DENY" is accepted for x-frame-options because the comparison is case-insensitive. |
| SecurityHeaders.FrameAllowFrom | http_security_check.py:83-85 | In the analysis result, "allow-from https://example.com" is "invalid" for x-frame-options. |
| SecurityHeaders.ContentTypeExamples | http_security_check.py:77-79 | In the analysis result, "nosniff" is "present" for x-content-type-options, while "sniff" and " nosniff" are "invalid". |
| SecurityHeaders.HstsNoMaxAgeExample | http_security_check.py:90-93 | In the analysis result, an HSTS value of "includeSubDomains" is "present (no max-age)". |
| SecurityHeaders.HstsDisabledExample | http_security_check.py:94-95 | In the analysis result, an HSTS value of "max-age=0" is "present (disabled)". |
| SecurityHeaders.OneYearMaxAge | http_security_check.py:92-94 | "max-age=31536000" contains "max-age" but not "max-age=0", so neither HSTS override fires. |
| SecurityHeaders.HstsOneYearPresent | http_security_check.py:89-95 | In the analysis result, an HSTS value of "max-age=31536000" stays "present". |
| SecurityHeaders.FrameSameOriginPresent | http_security_check.py:83-84 | In the analysis result, "SAMEORIGIN" is accepted for x-frame-options. |
| SecurityHeaders.SameOriginLower | http_security_check.py:83 | Lower-casing "SAMEORIGIN" gives "sameorigin", one of the two accepted directives. |
| SecurityHeaders.OthersMissing | http_security_check.py:70-74 | When only validated headers are sent, every presence-only checklist entry is "missing". |
| SecurityHeaders.EndToEndExample | http_security_check.py:54-97 | A response carrying only "max-age=31536000" HSTS and "SAMEORIGIN" framing gets "present" for both, "missing" for x-content-type-options and "missing" for the other six checklist names. |
| Strings.Lower | http_security_check.py:77 | Lower-casing keeps the length, lower-cases each ASCII letter and keeps every other character. |
| Strings.Contains | http_security_check.py:92-94 | Python's `in` on strings: the empty string is contained in every string, and a contained string is never longer than the haystack. `ContainsIffOccurs` ties it to the index-based definition. |
| Strings.ContainsIffOccurs | http_security_check.py:92-94 | The substring test holds iff the needle occurs at some index of the haystack. This is proved in both directions. |
| Strings.ContainsPrefix | http_security_check.py:92-94 | A haystack that contains a string also contains every prefix of it, so "max-age=0" implies "max-age". |
| Strings.AbsentCharNotContained | http_security_check.py:92 | A string with a character that the haystack lacks is not a substring of the haystack. |
| Strings.LowerIdentity | http_security_check.py:77 | A string with no upper-case ASCII letter is unchanged by lower-casing. |
| Strings.NotContainedPastStart | http_security_check.py:94 | A string that is not a prefix of the haystack, and whose first character does not occur later in it, is not a substring of it. |

## Left out

- `fetch` (`http_security_check.py:29-51`) is not modelled: it is a network GET with a TLS context and a timeout. Its key lower-casing (line 50) is not a precondition of `Analyze` either: the analysis never looks at key case, and the model is total over every map.
- `main` (`http_security_check.py:100-121`) is not modelled: argument parsing, the banner, JSON serialisation and file output contain no decisions.
- The module docstring's claim of TLS-version checks (line 4) has no code behind it, so there is nothing to model.
- Strings.Lower: models ASCII lower-casing only. Python's `str.lower` also maps non-ASCII letters. Every literal the analysis compares against is ASCII.
- Insertion order of the findings dictionary is not modelled. The findings are a `map`, and only its key set and per-key values are stated.

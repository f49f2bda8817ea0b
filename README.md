# Brazilian phone-number utilities, modelled in Dafny

The WhatsApp webhook bot normalises the phone number of every inbound
contact before it replies. This project models the module that does this,
`utils.py`. It has three functions:

- `normalize_brazilian_phone` removes every non-digit character. It then
  classifies the digits by length and prefix, using an ordered chain of
  rules. A 13-digit number starting with `55` comes back unchanged, whether
  or not it has the mobile `9`. The other numbers it can resolve come out in
  the international form `55` + area code + `9` + subscriber (13 digits).
  Numbers without an area code get a best-effort result, and anything else
  comes back as its bare digits.
- `is_brazilian_number` is true when the digits start with the country code
  `55`, or have 10 or 11 digits.
- `extract_area_code` returns the two digits after `55` (fewer when the
  digits end sooner), or the first two digits of a number with at least 10
  digits, or nothing.

Files:

- `pytext.dfy` (module `PyText`) holds the Python string operations the
  module uses: `str.startswith`, slicing that clamps its bounds, and
  `re.sub(r'\D', '', s)`. The last one is `StripNonDigits`, a filter that
  keeps `'0'..'9'`.
- `brazilian_phone.dfy` (module `BrazilianPhone`) holds the three
  functions. `Resolve` is the chain of rules on the cleaned digits
  (`utils.py:25-58`). `Normalize` is the whole function: the empty-input
  guard, then cleaning, then `Resolve`.
- `phone_properties.dfy` (module `PhoneProperties`) proves the properties.

Everything in `utils.py` is pure, so the model is made of functions and
lemmas. There are no classes and no loops.

Observations the proofs make precise:

- The rules test the lengths 13, 12, 10, 11, 9 and 8, and these are all
  different. So at most one rule applies to any digit string, and the order
  of the chain never decides a result. Each rule lemma below assumes only
  its own guard.
- The 13-digit `55` rule returns the digits unchanged, even when index 4 is
  not the mobile `9`. So "full form" (`FullForm`) and "canonical"
  (`Canonical`) are kept apart. `CanonicalExactly` says when the result has
  the `9`.
- On a string, the empty-input guard changes nothing. Cleaning `""` gives
  `""`, and the fallback rule returns that. The guard only matters for
  `None`, which is not modelled (see below).
- An 8-digit number starting with `55` counts as Brazilian. Normalising it
  puts a `9` in front, and the result no longer counts as Brazilian. That
  is the only case where normalising changes the classification.
- A 10-digit number whose digits start with `55`, or an 11-digit one that
  also has the mobile `9`, is read by the normaliser as having area code
  `55`. `extract_area_code` tests for the country code first, so it returns
  the two digits after it instead.

## Model

| member | source | states |
|---|---|---|
| PyText.IsDigit | utils.py:23 | The character class `\d` as the model reads it: the ASCII digits `'0'..'9'`. Stripping keeps exactly these (StripCounts, StripSplice). |
| PyText.AllDigits | utils.py:23 | Every character of the string is a digit. Stripping gives exactly such strings, and leaves exactly them unchanged (StripNonDigits, StripFixedPoint). |
| PyText.StartsWith | utils.py:26 | `str.startswith`: false, not an error, on a string shorter than the prefix. It is used by every `55` test (utils.py lines 26, 30, 73 and 89). |
| PyText.Slice | utils.py:31 | A Python slice `s[i:j]` with clamped bounds. Its length is `min(j, len(s)) - i`, or 0 when the range is empty. Its characters are `s[i..]` in order. It never fails. |
| PyText.SliceFrom | utils.py:32 | `s[i:]`: its length is `len(s) - i`, or 0 past the end. Its characters are those of `s` from `i` on. |
| PyText.StripNonDigits | utils.py:23 | `re.sub(r'\D', '', s)`. The result contains only digits and is no longer than the input. |
| PyText.StripAppend | utils.py:23 | Stripping distributes over concatenation. |
| PyText.StripFixedPoint | utils.py:23 | Stripping leaves a string unchanged if and only if the string is all digits. |
| PyText.StripIdempotent | utils.py:23 | Stripping twice gives the same as stripping once. |
| PyText.StripSplice | utils.py:23 | Adding one character anywhere adds it to the stripped string at the same place if it is a digit. Otherwise the stripped string does not change. |
| PyText.StripCounts | utils.py:23 | Each digit occurs in the stripped string as often as in the input. No other character occurs in it. |
| BrazilianPhone.FullForm | utils.py:26 | The guard of the first rule: the digits start with `55` and there are 13 of them. The rule returns such digits unchanged (FullFormKept, FullFormFixed). |
| BrazilianPhone.Canonical | utils.py:29-45 | Full form with the mobile `9` at index 4, the shape the three completing rules produce (MissingNineInserted, AreaAndSubscriberCompleted, AreaNineSubscriberCompleted, CanonicalExactly). |
| BrazilianPhone.BareMobile | utils.py:48 | The guard of the bare-mobile rule: 9 digits starting with `9`. It is also the shape of the 8-digit rule's result (BareMobileKept, BareSubscriberPrefixed). |
| BrazilianPhone.Unrecognised | utils.py:57-58 | None of the six rule guards holds, so the digits fall through to the final return unchanged (UnrecognisedKept). |
| BrazilianPhone.Resolve | utils.py:25-58 | The chain of rules on the cleaned digits. A digit-only input gives a digit-only result. |
| BrazilianPhone.Normalize | utils.py:4-58 | `normalize_brazilian_phone` is total and always returns a digit-only string. |
| BrazilianPhone.IsBrazilianNumber | utils.py:60-75 | `is_brazilian_number`: the digits start with `55` or there are 10 or 11 of them. Its properties are in NormalizeKeepsBrazilian, FullFormOnlyFromBrazilian, BrazilianLeftIncomplete, BrazilianHasAreaCode and FormattingIsIgnored. |
| BrazilianPhone.ExtractAreaCode | utils.py:77-94 | The area code, when there is one, has at most two characters, and all of them are digits. |
| PhoneProperties.NormalizeResolvesDigits | utils.py:19-23 | The result is `Resolve` of the input's digits, for every string including `""`. An empty input is returned unchanged. |
| PhoneProperties.DigitsDetermineNormalize | utils.py:23 | Two inputs with the same digits normalise to the same result. |
| PhoneProperties.FormattingIsIgnored | utils.py:23 | Removing one non-digit character anywhere in the input changes none of the three functions' results. |
| PhoneProperties.FullFormKept | utils.py:25-27 | If the digits start with `55` and have length 13, they are returned unchanged. |
| PhoneProperties.MissingNineInserted | utils.py:29-33 | If the digits start with `55` and have length 12, the result is canonical: 13 digits, `55` first, `9` at index 4. Removing that `9` gives back the digits. |
| PhoneProperties.AreaAndSubscriberCompleted | utils.py:35-39 | If there are 10 digits, the result is canonical. Removing the leading `55` and the `9` at index 4 gives back the digits. |
| PhoneProperties.AreaNineSubscriberCompleted | utils.py:41-45 | If there are 11 digits with `9` at index 2, the result is canonical. Removing the leading `55` gives back the digits. |
| PhoneProperties.BareMobileKept | utils.py:47-50 | If there are 9 digits starting with `9`, they are returned unchanged. |
| PhoneProperties.BareSubscriberPrefixed | utils.py:52-55 | If there are 8 digits, the result is `9` followed by those digits, which is 9 digits long. |
| PhoneProperties.UnrecognisedKept | utils.py:57-58 | If no rule applies, the digits are returned unchanged. |
| PhoneProperties.NormalizeResultShapes | utils.py:19-58 | Every result is in one of three shapes: full form, a bare 9-digit mobile number, or the input's unrecognised digits. |
| PhoneProperties.CanonicalExactly | utils.py:25-45 | The result is canonical if and only if one of two things holds. Either the digits are in full form with the `9` at index 4 already, or one of the three completing rules applies. |
| PhoneProperties.FullFormFixed | utils.py:25-27 | A digit string in full form normalises to itself. |
| PhoneProperties.NormalizeIdempotent | utils.py:4-58 | Normalising twice gives the same as normalising once, for every input. |
| PhoneProperties.NormalizeKeepsBrazilian | utils.py:60-75 | The normalised number is Brazilian if and only if the input is, except for 8-digit inputs starting with `55`. Normalising never makes a non-Brazilian number Brazilian. |
| PhoneProperties.FullFormOnlyFromBrazilian | utils.py:60-75 | A result in full form only comes from an input that `is_brazilian_number` accepts. |
| PhoneProperties.BrazilianLeftIncomplete | utils.py:60-75 | A Brazilian input fails to reach full form if and only if one of two things holds. Either it has the country code but a length other than 10 to 13, or it has 11 digits without the `9` at index 2. |
| PhoneProperties.BrazilianHasAreaCode | utils.py:70-94 | Every number that `is_brazilian_number` accepts has an area code. |
| PhoneProperties.AreaCodeShape | utils.py:87-94 | The area code is missing if and only if the digits lack the `55` prefix and have fewer than 10 digits. With the prefix, the code is exactly the digits from index 2 up to index 4 or the end, whichever comes first, whatever the length. Without the prefix and with at least 10 digits, the code is exactly the first two digits. The code has two digits if and only if there are at least four digits. |
| PhoneProperties.AreaCodeClampedExamples | utils.py:89-90 | The clamped slice: `"55"` gives the area code `""`, and `"(55) 3"` gives `"3"`. |
| PhoneProperties.AreaCodeOfFullForm | utils.py:89-90 | The area code of a number in full form is made of its digits 2 and 3. |
| PhoneProperties.AreaCodeAgreesWithNormalize | utils.py:25-45 | When normalisation reaches full form, the extracted area code equals digits 2 and 3 of the normalised number, and extracting it from the normalised number gives the same code. The exception is 10- or 11-digit inputs starting with `55`. |
| PhoneProperties.AreaCodeDisagreesOnArea55 | utils.py:36-45 | For that exception, the normalised number's area code is `55`. `extract_area_code` returns the two digits after `55` instead. |
| PhoneProperties.DigitStringResolved | utils.py:23 | An input made only of digits goes straight to the rules. |
| PhoneProperties.FullFormExample | utils.py:11 | `5542984285525`, a format named in the docstring, stays as it is, both under the rules and through the whole normaliser. |
| PhoneProperties.MissingNineExample | utils.py:29-33 | The rules turn `554284285525` into `5542984285525`, and so does the whole normaliser. |
| PhoneProperties.AreaAndSubscriberExample | utils.py:35-39 | The rules turn `4284285525` into `5542984285525`, and so does the whole normaliser. |
| PhoneProperties.AreaNineSubscriberExample | utils.py:11 | The rules turn `42984285525`, a format named in the docstring, into `5542984285525`, and so does the whole normaliser. |
| PhoneProperties.BareNumberExamples | utils.py:47-55 | Under the rules and through the whole normaliser, `984285525` (also named in the docstring) stays as it is, and `84285525` becomes `984285525`. |
| PhoneProperties.LocalFormResolves | utils.py:22-23 | A number written `(AA) NNNNN-NNNN` goes to the rules as its bare digits. |
| PhoneProperties.FormattedExample | utils.py:22-45 | `(42) 98428-5525` normalises to `5542984285525`. |
| PhoneProperties.StripWrittenForm | utils.py:23 | The written forms `(AA) NNNNN-NNNN` and `+CC (AA) NNNNN-NNNN` strip to their digits. |
| PhoneProperties.WrittenFormIgnored | utils.py:22-23 | Both written forms normalise like their bare digits. |

## Left out

- `None` input: in the source, `normalize_brazilian_phone(None)` returns
  `None`, and the two helper queries raise. The model takes a string, so it
  covers only the empty-string half of the falsy-input guard.
- Non-ASCII digits: Python's `\D` on `str` keeps every Unicode decimal digit
  (Arabic-Indic digits, for instance). The model counts only `'0'..'9'` as
  digits.
- The rest of the repository is not part of this model. That covers the
  WhatsApp Cloud API client (HTTP requests, media download, audio
  conversion through an external program, speech-to-text), the hosted
  conversational agent and its tool dispatch, the Flask webhook routes, and
  the demo script. They are network calls, subprocesses and configuration,
  and none of them computes anything that could be stated as a property.

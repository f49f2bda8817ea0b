/**
 The Brazilian phone-number utilities: a normaliser that brings a number
 written in any of the usual formats to the international form
 `55` + area code + `9` + subscriber, and two classification queries that
 work on the same digit string.
 */
module BrazilianPhone {
  import opened PyText

  /** The full international form: country code `55` and 13 digits. */
  predicate FullForm(r: string) {
    StartsWith(r, "55") && |r| == 13
  }

  /** The canonical mobile form: the full form with the mobile `9` after the
      two-digit area code. */
  predicate Canonical(r: string) {
    FullForm(r) && r[4] == '9'
  }

  /** A bare mobile number: `9` + 8-digit subscriber, no area code. */
  predicate BareMobile(r: string) {
    |r| == 9 && r[0] == '9'
  }

  /** A digit string that none of the normaliser's rules recognises: the
      negation of each of `Resolve`'s six guards, so exactly the strings that
      reach its final `else`. */
  predicate Unrecognised(c: string) {
    && !(StartsWith(c, "55") && |c| == 13)
    && !(StartsWith(c, "55") && |c| == 12)
    && |c| != 10
    && !(|c| == 11 && c[2] == '9')
    && !(|c| == 9 && c[0] == '9')
    && |c| != 8
  }

  /** The ordered chain of rules applied to the cleaned digits. */
  function Resolve(c: string): (r: string)
    ensures AllDigits(c) ==> AllDigits(r)
  {
    if StartsWith(c, "55") && |c| == 13 then
      c
    else if StartsWith(c, "55") && |c| == 12 then
      "55" + Slice(c, 2, 4) + "9" + SliceFrom(c, 4)
    else if |c| == 10 then
      "55" + Slice(c, 0, 2) + "9" + SliceFrom(c, 2)
    else if |c| == 11 && c[2] == '9' then
      "55" + Slice(c, 0, 2) + SliceFrom(c, 2)
    else if |c| == 9 && c[0] == '9' then
      c
    else if |c| == 8 then
      "9" + c
    else
      c
  }

  /** `normalize_brazilian_phone`: an empty input is returned as it is,
      anything else is stripped to its digits and resolved. */
  function Normalize(phone: string): (r: string)
    ensures AllDigits(r)
  {
    if phone == [] then phone else Resolve(StripNonDigits(phone))
  }

  /** `is_brazilian_number`: the digits carry the country code `55`, or they
      are as long as an area code plus a subscriber number. */
  predicate IsBrazilianNumber(phone: string) {
    var c := StripNonDigits(phone);
    StartsWith(c, "55") || |c| == 10 || |c| == 11
  }

  /** `extract_area_code`: the two digits after the country code when there
      is one, else the first two digits of a number long enough to hold an
      area code, else nothing. The slices clamp, so a number whose digits are
      `55` or `55` + one digit yields a shorter code. */
  function ExtractAreaCode(phone: string): (r: Option<string>)
    ensures r.Some? ==> |r.value| <= 2 && AllDigits(r.value)
  {
    var c := StripNonDigits(phone);
    if StartsWith(c, "55") then Some(Slice(c, 2, 4))
    else if |c| >= 10 then Some(Slice(c, 0, 2))
    else None
  }
}

/**
 What the normaliser and the two queries promise: the shape of the result of
 each rule, that formatting never matters, idempotence, and how the three
 functions agree (and where they do not).
 */
module PhoneProperties {
  import opened PyText
  import opened BrazilianPhone

  /** The empty-input guard changes nothing on strings: the result always
      depends on the digit subsequence only. */
  lemma NormalizeResolvesDigits(phone: string)
    ensures Normalize(phone) == Resolve(StripNonDigits(phone))
    ensures phone == [] ==> Normalize(phone) == phone
  {
    if phone == [] {
      assert StripNonDigits(phone) == [];
    }
  }

  lemma DigitsDetermineNormalize(x: string, y: string)
    requires StripNonDigits(x) == StripNonDigits(y)
    ensures Normalize(x) == Normalize(y)
  {
    NormalizeResolvesDigits(x);
    NormalizeResolvesDigits(y);
  }

  /** Deleting one formatting character (a space, a dash, a parenthesis, a
      plus sign, ...) anywhere in the input changes no result. */
  lemma FormattingIsIgnored(a: string, c: char, b: string)
    requires !IsDigit(c)
    ensures Normalize(a + [c] + b) == Normalize(a + b)
    ensures IsBrazilianNumber(a + [c] + b) == IsBrazilianNumber(a + b)
    ensures ExtractAreaCode(a + [c] + b) == ExtractAreaCode(a + b)
  {
    StripSplice(a, c, b);
    StripAppend(a, b);
    DigitsDetermineNormalize(a + [c] + b, a + b);
  }

  // The rules, one lemma each. None of them needs the guards of the rules
  // before it to fail: the lengths 13, 12, 10, 11, 9 and 8 are distinct, so
  // at most one rule ever applies and their order is never decisive.

  /** Digits `55` + 11 more are already in full form and come back unchanged. */
  lemma FullFormKept(phone: string)
    requires StartsWith(StripNonDigits(phone), "55") && |StripNonDigits(phone)| == 13
    ensures Normalize(phone) == StripNonDigits(phone)
  {
    NormalizeResolvesDigits(phone);
  }

  /** `55` + 10 digits: the `9` is inserted after the area code. The result
      is canonical, and dropping the inserted `9` gives the digits back. */
  lemma MissingNineInserted(phone: string)
    requires StartsWith(StripNonDigits(phone), "55") && |StripNonDigits(phone)| == 12
    ensures var c, r := StripNonDigits(phone), Normalize(phone);
      Canonical(r) && r[..4] + r[5..] == c
  {
    NormalizeResolvesDigits(phone);
    var c, r := StripNonDigits(phone), Normalize(phone);
    assert r == "55" + c[2..4] + "9" + c[4..];
    assert r[..4] == c[..4];
    assert r[5..] == c[4..];
    assert c == c[..4] + c[4..];
  }

  /** Area code + 8-digit subscriber: `55` in front, `9` after the area code.
      Dropping the `55` and the `9` gives the digits back. */
  lemma AreaAndSubscriberCompleted(phone: string)
    requires |StripNonDigits(phone)| == 10
    ensures var c, r := StripNonDigits(phone), Normalize(phone);
      Canonical(r) && r[2..4] + r[5..] == c
  {
    NormalizeResolvesDigits(phone);
    var c, r := StripNonDigits(phone), Normalize(phone);
    assert r == "55" + c[..2] + "9" + c[2..];
    assert r[2..4] == c[..2];
    assert r[5..] == c[2..];
    assert c == c[..2] + c[2..];
  }

  /** Area code + `9` + subscriber: only the country code is added. */
  lemma AreaNineSubscriberCompleted(phone: string)
    requires |StripNonDigits(phone)| == 11 && StripNonDigits(phone)[2] == '9'
    ensures var c, r := StripNonDigits(phone), Normalize(phone);
      Canonical(r) && r[2..] == c
  {
    NormalizeResolvesDigits(phone);
    var c, r := StripNonDigits(phone), Normalize(phone);
    assert r == "55" + c;
    assert r[2..] == c;
    assert r[4] == c[2];
  }

  /** `9` + subscriber: no area code to add, the digits come back unchanged. */
  lemma BareMobileKept(phone: string)
    requires BareMobile(StripNonDigits(phone))
    ensures Normalize(phone) == StripNonDigits(phone)
  {
    NormalizeResolvesDigits(phone);
  }

  /** A bare 8-digit subscriber only gets the mobile `9` in front. */
  lemma BareSubscriberPrefixed(phone: string)
    requires |StripNonDigits(phone)| == 8
    ensures var c, r := StripNonDigits(phone), Normalize(phone);
      BareMobile(r) && r[1..] == c
  {
    NormalizeResolvesDigits(phone);
  }

  /** Any other digit string comes back unchanged. */
  lemma UnrecognisedKept(phone: string)
    requires Unrecognised(StripNonDigits(phone))
    ensures Normalize(phone) == StripNonDigits(phone)
  {
    NormalizeResolvesDigits(phone);
  }

  /** Every result is in full form, a bare mobile number, or the unrecognised
      digits of the input. */
  lemma NormalizeResultShapes(phone: string)
    ensures var c, r := StripNonDigits(phone), Normalize(phone);
      FullForm(r) || BareMobile(r) || (r == c && Unrecognised(c))
  {
    var c := StripNonDigits(phone);
    if StartsWith(c, "55") && |c| == 13 {
      FullFormKept(phone);
    } else if StartsWith(c, "55") && |c| == 12 {
      MissingNineInserted(phone);
    } else if |c| == 10 {
      AreaAndSubscriberCompleted(phone);
    } else if |c| == 11 && c[2] == '9' {
      AreaNineSubscriberCompleted(phone);
    } else if |c| == 9 && c[0] == '9' {
      BareMobileKept(phone);
    } else if |c| == 8 {
      BareSubscriberPrefixed(phone);
    } else {
      UnrecognisedKept(phone);
    }
  }

  /** The result is canonical exactly when the digits are in full form with
      the mobile `9` already in place, or one of the three completing rules
      applies. */
  lemma CanonicalExactly(phone: string)
    ensures var c := StripNonDigits(phone);
      Canonical(Normalize(phone)) <==>
        || (FullForm(c) && c[4] == '9')
        || (StartsWith(c, "55") && |c| == 12)
        || |c| == 10
        || (|c| == 11 && c[2] == '9')
  {
    var c := StripNonDigits(phone);
    if StartsWith(c, "55") && |c| == 12 {
      MissingNineInserted(phone);
    } else if |c| == 10 {
      AreaAndSubscriberCompleted(phone);
    } else if |c| == 11 && c[2] == '9' {
      AreaNineSubscriberCompleted(phone);
    } else {
      NormalizeResultShapes(phone);
      NormalizeResolvesDigits(phone);
    }
  }

  /** A digit string already in full form is a fixed point. */
  lemma FullFormFixed(s: string)
    requires AllDigits(s) && FullForm(s)
    ensures Normalize(s) == s
  {
    StripFixedPoint(s);
    FullFormKept(s);
  }

  /** Normalising twice is the same as normalising once. */
  lemma NormalizeIdempotent(phone: string)
    ensures Normalize(Normalize(phone)) == Normalize(phone)
  {
    var c, r := StripNonDigits(phone), Normalize(phone);
    StripFixedPoint(r);
    NormalizeResultShapes(phone);
    if FullForm(r) {
      FullFormKept(r);
    } else if BareMobile(r) {
      BareMobileKept(r);
    } else {
      UnrecognisedKept(r);
    }
  }

  /** Normalising never makes a number Brazilian, and keeps every Brazilian
      number Brazilian except an 8-digit one that happens to start with `55`:
      the mobile `9` put in front of it hides the country-code test. */
  lemma NormalizeKeepsBrazilian(phone: string)
    ensures var c := StripNonDigits(phone);
      IsBrazilianNumber(Normalize(phone))
      <==> IsBrazilianNumber(phone) && !(|c| == 8 && StartsWith(c, "55"))
  {
    var c, r := StripNonDigits(phone), Normalize(phone);
    StripFixedPoint(r);
    NormalizeResultShapes(phone);
    NormalizeResolvesDigits(phone);
    if BareMobile(r) {
      assert r[..2] != "55" by { assert r[..2][0] == r[0]; }
      if |c| == 9 {
        assert c[..2] != "55" by { assert c[..2][0] == c[0]; }
      }
    }
  }

  /** A result in full form only comes from a number the query calls
      Brazilian. */
  lemma FullFormOnlyFromBrazilian(phone: string)
    requires FullForm(Normalize(phone))
    ensures IsBrazilianNumber(phone)
  {
    NormalizeKeepsBrazilian(phone);
    StripFixedPoint(Normalize(phone));
  }

  /** The converse fails exactly here: a number the query calls Brazilian
      is left short of full form when it carries the country code but has
      none of the lengths 10 to 13 (an 8-digit one gets only the `9`, any
      other comes back as it is), or when it has 11 digits without the
      mobile `9`. */
  lemma BrazilianLeftIncomplete(phone: string)
    ensures var c := StripNonDigits(phone);
      IsBrazilianNumber(phone) && !FullForm(Normalize(phone)) <==>
        || (StartsWith(c, "55") && |c| != 10 && |c| != 11 && |c| != 12 && |c| != 13)
        || (|c| == 11 && c[2] != '9')
  {
    var c, r := StripNonDigits(phone), Normalize(phone);
    NormalizeResultShapes(phone);
    CanonicalExactly(phone);
    if StartsWith(c, "55") && |c| == 13 {
      FullFormKept(phone);
    } else if |c| == 8 {
      BareSubscriberPrefixed(phone);
    } else if |c| == 9 && c[0] == '9' {
      assert c[..2][0] == c[0];
    }
  }

  /** Every number the query calls Brazilian has an area code. */
  lemma BrazilianHasAreaCode(phone: string)
    requires IsBrazilianNumber(phone)
    ensures ExtractAreaCode(phone).Some?
  {
  }

  /** The area code is the slice after the country code, or the first two
      digits; it is two digits long unless it is cut short by the end of
      `55` or of `55` + one digit. It is missing exactly when the digits have
      no country code and fewer than 10 digits. */
  lemma AreaCodeShape(phone: string)
    ensures var c, a := StripNonDigits(phone), ExtractAreaCode(phone);
      && (a.None? <==> !StartsWith(c, "55") && |c| < 10)
      && (StartsWith(c, "55") ==> a == Some(c[2..if |c| < 4 then |c| else 4]))
      && (!StartsWith(c, "55") && |c| >= 10 ==> a == Some(c[..2]))
      && (a.Some? ==> (|a.value| == 2 <==> |c| >= 4))
  {
  }

  /** The clamping slice: `55` alone has an empty area code, `55` and one
      digit a one-digit code. */
  lemma AreaCodeClampedExamples(p: string, q: string)
    requires p == "55" && q == "(55) 3"
    ensures ExtractAreaCode(p) == Some("")
    ensures ExtractAreaCode(q) == Some("3")
  {
    assert StripNonDigits(p) == "55";
    assert Slice("55", 2, 4) == [];
    assert q == "(55) " + "3";
    StripAppend("(55) ", "3");
    assert StripNonDigits("(55) ") == "55";
    assert StripNonDigits("3") == "3";
    assert StripNonDigits(q) == "553";
    assert StartsWith("553", "55");
    assert Slice("553", 2, 4) == "553"[2..3] == "3";
  }

  /** A number in full form has its area code after the country code. */
  lemma AreaCodeOfFullForm(r: string)
    requires AllDigits(r) && FullForm(r)
    ensures ExtractAreaCode(r) == Some(r[2..4])
  {
    StripFixedPoint(r);
  }

  /** Where the normaliser completes a number, the area code the query
      extracts from the input is the one in the normalised number, and
      extracting it again from the normalised number agrees; the only
      exception is a 10- or 11-digit number whose area code is `55`. */
  lemma AreaCodeAgreesWithNormalize(phone: string)
    requires FullForm(Normalize(phone))
    requires var c := StripNonDigits(phone);
      !(StartsWith(c, "55") && (|c| == 10 || |c| == 11))
    ensures ExtractAreaCode(phone) == Some(Normalize(phone)[2..4])
    ensures ExtractAreaCode(Normalize(phone)) == ExtractAreaCode(phone)
  {
    var c, r := StripNonDigits(phone), Normalize(phone);
    AreaCodeOfFullForm(r);
    if StartsWith(c, "55") && |c| == 13 {
      FullFormKept(phone);
    } else if StartsWith(c, "55") && |c| == 12 {
      MissingNineInserted(phone);
      assert r[2..4] == r[..4][2..4] == c[..4][2..4] == c[2..4];
    } else if |c| == 10 {
      AreaAndSubscriberCompleted(phone);
      assert c[..2] == (r[2..4] + r[5..])[..2] == r[2..4];
    } else if |c| == 11 && c[2] == '9' {
      AreaNineSubscriberCompleted(phone);
      assert c[..2] == r[2..][..2] == r[2..4];
    } else {
      NormalizeResultShapes(phone);
      assert false;
    }
  }

  /** The exception: a 10-digit number, or an 11-digit one with the mobile
      `9`, whose digits start with `55`. The normaliser reads that `55` as
      the area code, while the query, testing for the country code first,
      returns the two digits after it. */
  lemma AreaCodeDisagreesOnArea55(phone: string)
    requires var c := StripNonDigits(phone);
      StartsWith(c, "55") && (|c| == 10 || (|c| == 11 && c[2] == '9'))
    ensures var c, r := StripNonDigits(phone), Normalize(phone);
      && Canonical(r) && r[2..4] == "55"
      && ExtractAreaCode(phone) == Some(c[2..4])
  {
    var c, r := StripNonDigits(phone), Normalize(phone);
    if |c| == 10 {
      AreaAndSubscriberCompleted(phone);
      assert r[2..4] == (r[2..4] + r[5..])[..2];
    } else {
      AreaNineSubscriberCompleted(phone);
      assert r[2..4] == r[2..][..2];
    }
    assert c[..2] == "55";
  }

  /** A digit string is resolved as it stands. */
  lemma DigitStringResolved(s: string)
    requires AllDigits(s)
    ensures Normalize(s) == Resolve(s)
  {
    StripFixedPoint(s);
    NormalizeResolvesDigits(s);
  }

  // One number, 42 98428-5525, in the formats the normaliser's documentation
  // names and the ones next to them; each rule on its own digits, and the
  // whole normaliser on the same digits. The digits are a parameter fixed by
  // the precondition.

  lemma FullFormExample(c: string)
    requires c == "5542984285525"
    ensures Resolve(c) == "5542984285525"
    ensures Normalize(c) == "5542984285525"
  {
    assert StartsWith(c, "55") && |c| == 13;
    assert AllDigits(c);
    DigitStringResolved(c);
  }

  lemma MissingNineExample(c: string)
    requires c == "554284285525"
    ensures Resolve(c) == "5542984285525"
    ensures Normalize(c) == "5542984285525"
  {
    assert Resolve(c) == "5542984285525" by {
      assert StartsWith(c, "55") && |c| == 12;
      assert Slice(c, 2, 4) == c[2..4] == "42";
      assert SliceFrom(c, 4) == c[4..] == "84285525";
      assert "55" + "42" + "9" + "84285525" == "5542984285525";
    }
    assert AllDigits(c);
    DigitStringResolved(c);
  }

  lemma AreaAndSubscriberExample(c: string)
    requires c == "4284285525"
    ensures Resolve(c) == "5542984285525"
    ensures Normalize(c) == "5542984285525"
  {
    assert Resolve(c) == "5542984285525" by {
      assert |c| == 10;
      assert Slice(c, 0, 2) == c[0..2] == "42";
      assert SliceFrom(c, 2) == c[2..] == "84285525";
      assert "55" + "42" + "9" + "84285525" == "5542984285525";
    }
    assert AllDigits(c);
    DigitStringResolved(c);
  }

  lemma AreaNineSubscriberExample(c: string)
    requires c == "42984285525"
    ensures Resolve(c) == "5542984285525"
    ensures Normalize(c) == "5542984285525"
  {
    assert Resolve(c) == "5542984285525" by {
      assert |c| == 11 && c[2] == '9';
      assert Slice(c, 0, 2) == c[0..2] == "42";
      assert SliceFrom(c, 2) == c[2..] == "984285525";
      assert "55" + "42" + "984285525" == "5542984285525";
    }
    assert AllDigits(c);
    DigitStringResolved(c);
  }

  lemma BareNumberExamples(c: string, d: string)
    requires c == "984285525" && d == "84285525"
    ensures Resolve(c) == "984285525"
    ensures Resolve(d) == "984285525"
    ensures Normalize(c) == "984285525"
    ensures Normalize(d) == "984285525"
  {
    assert |c| == 9 && c[0] == '9';
    assert |d| == 8;
    assert AllDigits(c);
    DigitStringResolved(c);
    assert AllDigits(d);
    DigitStringResolved(d);
  }

  /** The usual written form `(AA) NNNNN-NNNN` strips to its digits, and so
      does the same with the country code in front as `+55 `. */
  lemma StripWrittenForm(cc: string, area: string, first: string, last: string)
    requires AllDigits(cc) && AllDigits(area) && AllDigits(first) && AllDigits(last)
    ensures StripNonDigits("(" + area + ") " + first + "-" + last) == area + first + last
    ensures StripNonDigits("+" + cc + " (" + area + ") " + first + "-" + last)
         == cc + area + first + last
  {
    StripFixedPoint(cc);
    StripFixedPoint(area);
    StripFixedPoint(first);
    StripFixedPoint(last);
    assert StripNonDigits("(") == [];
    assert StripNonDigits(") ") == [];
    assert StripNonDigits("-") == [];
    assert StripNonDigits("+") == [];
    assert StripNonDigits(" (") == [];
    // (AA) NNNNN-NNNN, one piece at a time
    StripAppend("(", area);
    assert StripNonDigits("(" + area) == area;
    StripAppend("(" + area, ") ");
    assert StripNonDigits("(" + area + ") ") == area;
    StripAppend("(" + area + ") ", first);
    assert StripNonDigits("(" + area + ") " + first) == area + first;
    StripAppend("(" + area + ") " + first, "-");
    assert StripNonDigits("(" + area + ") " + first + "-") == area + first;
    StripAppend("(" + area + ") " + first + "-", last);
    // +CC (AA) NNNNN-NNNN, the same way
    StripAppend("+", cc);
    assert StripNonDigits("+" + cc) == cc;
    StripAppend("+" + cc, " (");
    assert StripNonDigits("+" + cc + " (") == cc;
    StripAppend("+" + cc + " (", area);
    assert StripNonDigits("+" + cc + " (" + area) == cc + area;
    StripAppend("+" + cc + " (" + area, ") ");
    assert StripNonDigits("+" + cc + " (" + area + ") ") == cc + area;
    StripAppend("+" + cc + " (" + area + ") ", first);
    assert StripNonDigits("+" + cc + " (" + area + ") " + first) == cc + area + first;
    StripAppend("+" + cc + " (" + area + ") " + first, "-");
    assert StripNonDigits("+" + cc + " (" + area + ") " + first + "-") == cc + area + first;
    StripAppend("+" + cc + " (" + area + ") " + first + "-", last);
  }

  /** Hence both written forms normalise as their digits do. */
  lemma WrittenFormIgnored(cc: string, area: string, first: string, last: string)
    requires AllDigits(cc) && AllDigits(area) && AllDigits(first) && AllDigits(last)
    ensures Normalize("(" + area + ") " + first + "-" + last) == Normalize(area + first + last)
    ensures Normalize("+" + cc + " (" + area + ") " + first + "-" + last)
         == Normalize(cc + area + first + last)
  {
    StripWrittenForm(cc, area, first, last);
    StripFixedPoint(area + first + last);
    StripFixedPoint(cc + area + first + last);
    DigitsDetermineNormalize("(" + area + ") " + first + "-" + last, area + first + last);
    DigitsDetermineNormalize("+" + cc + " (" + area + ") " + first + "-" + last, cc + area + first + last);
  }

  /** A number written `(AA) NNNNN-NNNN` goes to the rules as its digits. */
  lemma LocalFormResolves(area: string, first: string, last: string)
    requires AllDigits(area) && AllDigits(first) && AllDigits(last)
    ensures Normalize("(" + area + ") " + first + "-" + last) == Resolve(area + first + last)
  {
    StripWrittenForm("", area, first, last);
    StripFixedPoint(area + first + last);
    DigitsDetermineNormalize("(" + area + ") " + first + "-" + last, area + first + last);
    DigitStringResolved(area + first + last);
  }

  /** The documented number as it is usually written, through the whole
      normaliser. */
  lemma FormattedExample(p: string, d: string)
    requires p == "(42) 98428-5525" && d == "42984285525"
    ensures Normalize(p) == "5542984285525"
  {
    var area, first, last := "42", "98428", "5525";
    assert p == "(" + area + ") " + first + "-" + last;
    assert d == area + first + last;
    LocalFormResolves(area, first, last);
    AreaNineSubscriberExample(d);
  }
}

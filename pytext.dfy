/**
 The string primitives the phone utilities are built from, with Python's
 semantics: `str.startswith`, slicing that clamps instead of failing, and
 `re.sub(r'\D', '', s)`, which deletes every character that is not a digit.
 Only the ASCII digits '0'..'9' count as digits here.
 */
module PyText {

  datatype Option<+T> = None | Some(value: T)

  predicate IsDigit(c: char) {
    '0' <= c <= '9'
  }

  predicate AllDigits(s: string) {
    forall i :: 0 <= i < |s| ==> IsDigit(s[i])
  }

  /** `s.startswith(p)`: false, not an error, when `s` is shorter than `p`. */
  predicate StartsWith(s: string, p: string) {
    |p| <= |s| && s[..|p|] == p
  }

  /** `s[i:j]` for non-negative bounds: both ends are clamped to `|s|`, and an
      empty range gives the empty string. */
  function Slice(s: string, i: nat, j: nat): (r: string)
    ensures |r| == if j <= i || |s| <= i then 0 else (if j <= |s| then j else |s|) - i
    ensures forall k :: 0 <= k < |r| ==> r[k] == s[i + k]
  {
    var hi := if j <= |s| then j else |s|;
    var lo := if i <= hi then i else hi;
    s[lo..hi]
  }

  /** `s[i:]`: everything from index `i` on, empty when `i` is past the end. */
  function SliceFrom(s: string, i: nat): (r: string)
    ensures |r| == if |s| <= i then 0 else |s| - i
    ensures forall k :: 0 <= k < |r| ==> r[k] == s[i + k]
  {
    if i <= |s| then s[i..] else []
  }

  /** `re.sub(r'\D', '', s)`: the digits of `s`, in order. */
  function StripNonDigits(s: string): (r: string)
    ensures AllDigits(r)
    ensures |r| <= |s|
  {
    if s == [] then []
    else if IsDigit(s[0]) then [s[0]] + StripNonDigits(s[1..])
    else StripNonDigits(s[1..])
  }

  /** Stripping works character by character: it distributes over concatenation. */
  lemma {:induction false} StripAppend(a: string, b: string)
    ensures StripNonDigits(a + b) == StripNonDigits(a) + StripNonDigits(b)
  {
    if a == [] {
      assert a + b == b;
    } else {
      assert (a + b)[1..] == a[1..] + b;
      StripAppend(a[1..], b);
    }
  }

  /** A digit string is a fixed point of stripping, and only a digit string is. */
  lemma {:induction false} StripFixedPoint(s: string)
    ensures StripNonDigits(s) == s <==> AllDigits(s)
  {
    if s != [] {
      StripFixedPoint(s[1..]);
      if IsDigit(s[0]) {
        assert AllDigits(s) <==> AllDigits(s[1..]) by {
          if AllDigits(s[1..]) {
            forall i | 0 <= i < |s| ensures IsDigit(s[i]) {
              if i > 0 { assert s[i] == s[1..][i - 1]; }
            }
          }
        }
        assert s == [s[0]] + s[1..];
      } else {
        assert !AllDigits(s);
        assert |StripNonDigits(s)| <= |s[1..]| < |s|;
      }
    }
  }

  /** Stripping is idempotent. */
  lemma StripIdempotent(s: string)
    ensures StripNonDigits(StripNonDigits(s)) == StripNonDigits(s)
  {
    StripFixedPoint(StripNonDigits(s));
  }

  /** Removing one non-digit character, wherever it stands, does not change
      the stripped string; inserting a digit inserts it at the same place. */
  lemma StripSplice(a: string, c: char, b: string)
    ensures StripNonDigits(a + [c] + b)
         == StripNonDigits(a) + (if IsDigit(c) then [c] else []) + StripNonDigits(b)
  {
    StripAppend(a + [c], b);
    StripAppend(a, [c]);
    assert [c][1..] == [];
  }

  /** Every digit occurs in the stripped string exactly as often as in the
      input, and nothing else occurs in it. */
  lemma {:induction false} StripCounts(s: string, c: char)
    ensures multiset(StripNonDigits(s))[c] == if IsDigit(c) then multiset(s)[c] else 0
  {
    if s != [] {
      StripCounts(s[1..], c);
      assert s == [s[0]] + s[1..];
      assert multiset(s) == multiset([s[0]]) + multiset(s[1..]);
    }
  }
}

/** The key order of the translator's dictionary (src/Translator.hpp:10-20): strings are
    compared with `std::lexicographical_compare`, character by character, where one
    character precedes another when its ASCII lower-case form is smaller.  The module
    proves that this is the strict weak order `std::map` needs, and that two keys are
    equivalent under it exactly when they agree after lower-casing. */
module CaseInsensitive {

  /** ASCII `tolower`: upper-case letters become lower case, everything else is kept. */
  function Lower(c: char): char {
    if 'A' <= c <= 'Z' then (c as int - 'A' as int + 'a' as int) as char else c
  }

  /** A string with every character passed through `Lower`. */
  function LowerStr(s: string): string {
    seq(|s|, i requires 0 <= i < |s| => Lower(s[i]))
  }

  /** `case_insensitive_comparator::compare`. */
  predicate CharLess(c1: char, c2: char) {
    Lower(c1) < Lower(c2)
  }

  /** `case_insensitive_comparator::operator()`: `std::lexicographical_compare` with
      `CharLess`, in the order the standard algorithm performs its tests: the second
      range running out answers false, then the first running out answers true, then
      the two characters are compared both ways. */
  predicate Less(a: string, b: string)
    decreases |b|
  {
    if |b| == 0 then false
    else if |a| == 0 then true
    else if CharLess(a[0], b[0]) then true
    else if CharLess(b[0], a[0]) then false
    else Less(a[1..], b[1..])
  }

  /** The equivalence `std::map` derives from its comparator: neither key precedes the other. */
  predicate Equivalent(a: string, b: string) {
    !Less(a, b) && !Less(b, a)
  }

  /** `x` and `y` agree on their first `k` characters, and position `k` decides:
      either `x` ends there while `y` goes on, or `x` has the smaller character there. */
  predicate DiffersAt(x: string, y: string, k: nat) {
    && k <= |x| && k <= |y| && x[..k] == y[..k]
    && ((k == |x| && k < |y|) || (k < |x| && k < |y| && x[k] < y[k]))
  }

  /** Lexicographic order on character codes, defined by the first position where the
      strings differ (or by one being a proper prefix of the other). */
  ghost predicate LexLess(x: string, y: string) {
    exists k: nat :: DiffersAt(x, y, k)
  }

  lemma LowerStrTail(s: string)
    requires |s| > 0
    ensures LowerStr(s) == [Lower(s[0])] + LowerStr(s[1..])
  {
    assert LowerStr(s)[1..] == LowerStr(s[1..]);
  }

  lemma {:induction false} LessIrreflexive(s: string)
    ensures !Less(s, s)
    decreases |s|
  {
    if |s| > 0 {
      LessIrreflexive(s[1..]);
    }
  }

  lemma {:induction false} LessAsymmetric(a: string, b: string)
    ensures Less(a, b) ==> !Less(b, a)
    decreases |a|
  {
    if |a| > 0 && |b| > 0 && Lower(a[0]) == Lower(b[0]) {
      LessAsymmetric(a[1..], b[1..]);
    }
  }

  lemma {:induction false} LessTransitive(a: string, b: string, c: string)
    requires Less(a, b) && Less(b, c)
    ensures Less(a, c)
    decreases |a|
  {
    if |a| > 0 && |b| > 0 && |c| > 0 && Lower(a[0]) == Lower(b[0]) == Lower(c[0]) {
      LessTransitive(a[1..], b[1..], c[1..]);
    }
  }

  lemma {:induction false} EquivalentIffSameLowercase(a: string, b: string)
    ensures Equivalent(a, b) <==> LowerStr(a) == LowerStr(b)
    decreases |a|
  {
    if |a| > 0 && |b| > 0 {
      LowerStrTail(a);
      LowerStrTail(b);
      if Lower(a[0]) == Lower(b[0]) {
        EquivalentIffSameLowercase(a[1..], b[1..]);
        if LowerStr(a) == LowerStr(b) {
          assert LowerStr(a[1..]) == LowerStr(a)[1..];
        }
      } else {
        assert LowerStr(a)[0] != LowerStr(b)[0];
      }
    } else if |a| != |b| {
      assert |LowerStr(a)| != |LowerStr(b)|;
    }
  }

  /** Equivalence of keys is transitive: together with `LessIrreflexive` and
      `LessTransitive` this makes `Less` a strict weak order. */
  lemma EquivalenceTransitive(a: string, b: string, c: string)
    requires Equivalent(a, b) && Equivalent(b, c)
    ensures Equivalent(a, c)
  {
    EquivalentIffSameLowercase(a, b);
    EquivalentIffSameLowercase(b, c);
    EquivalentIffSameLowercase(a, c);
  }

  lemma DiffersAtTail(x: string, y: string, k: nat)
    requires |x| > 0 && |y| > 0 && x[0] == y[0]
    ensures DiffersAt(x, y, k + 1) <==> DiffersAt(x[1..], y[1..], k)
  {
    if k + 1 <= |x| && k + 1 <= |y| {
      assert x[..k + 1] == [x[0]] + x[1..][..k];
      assert y[..k + 1] == [y[0]] + y[1..][..k];
    }
  }

  lemma {:induction false} LessFindsDifference(a: string, b: string) returns (k: nat)
    requires Less(a, b)
    ensures DiffersAt(LowerStr(a), LowerStr(b), k)
    decreases |a|
  {
    var x, y := LowerStr(a), LowerStr(b);
    if |a| == 0 || CharLess(a[0], b[0]) {
      k := 0;
      assert x[..0] == y[..0];
    } else {
      LowerStrTail(a);
      LowerStrTail(b);
      var k' := LessFindsDifference(a[1..], b[1..]);
      DiffersAtTail(x, y, k');
      k := k' + 1;
    }
  }

  lemma {:induction false} DifferenceGivesLess(a: string, b: string, k: nat)
    requires DiffersAt(LowerStr(a), LowerStr(b), k)
    ensures Less(a, b)
    decreases |a|
  {
    var x, y := LowerStr(a), LowerStr(b);
    if k > 0 {
      assert x[..k][0] == y[..k][0];
      LowerStrTail(a);
      LowerStrTail(b);
      DiffersAtTail(x, y, k - 1);
      DifferenceGivesLess(a[1..], b[1..], k - 1);
    }
  }

  /** `Less` is plain lexicographic order on the lower-cased strings. */
  lemma LessIsLexOnLowercase(a: string, b: string)
    ensures Less(a, b) <==> LexLess(LowerStr(a), LowerStr(b))
  {
    if Less(a, b) {
      var k := LessFindsDifference(a, b);
    }
    if LexLess(LowerStr(a), LowerStr(b)) {
      var k: nat :| DiffersAt(LowerStr(a), LowerStr(b), k);
      DifferenceGivesLess(a, b, k);
    }
  }

  /** A key that is a proper prefix of another, ignoring case, orders before it. */
  lemma ProperPrefixOrdersFirst(a: string, b: string)
    requires |a| < |b| && LowerStr(a) == LowerStr(b)[..|a|]
    ensures Less(a, b)
  {
    var x, y := LowerStr(a), LowerStr(b);
    assert x[..|a|] == y[..|a|];
    assert DiffersAt(x, y, |a|);
    DifferenceGivesLess(a, b, |a|);
  }

}

/** The translator's dictionary (src/Translator.hpp:23): a `std::map` from key to
    replacement ordered by the case-insensitive comparator.  A `std::map` keeps its
    entries strictly increasing under its comparator, so the model is that sequence of
    entries; `Lookup` is the declarative meaning of `find`, and `Find` is the search the
    map actually performs (the first key not less than the word, then an equivalence
    test). */
module DictionaryStore {
  import opened Options
  import opened CaseInsensitive

  datatype Entry = Entry(key: string, value: string)

  /** Every key precedes every later key under the case-insensitive order. */
  predicate StrictlySorted(es: seq<Entry>) {
    forall i, j :: 0 <= i < j < |es| ==> Less(es[i].key, es[j].key)
  }

  type Dictionary = es: seq<Entry> | StrictlySorted(es) witness []

  /** The dictionary of a default-constructed translator. */
  const Empty: Dictionary := []

  /** The value of the first entry whose key is equivalent to `w`, if there is one. */
  function Lookup(es: seq<Entry>, w: string): Option<string> {
    if |es| == 0 then None
    else if Equivalent(es[0].key, w) then Some(es[0].value)
    else Lookup(es[1..], w)
  }

  lemma {:induction false} LookupHitsExactlyOnEquivalentKey(es: seq<Entry>, w: string)
    ensures Lookup(es, w).Some? <==> exists k :: 0 <= k < |es| && Equivalent(es[k].key, w)
    ensures Lookup(es, w).Some? ==>
      exists k :: 0 <= k < |es| && Equivalent(es[k].key, w) && es[k].value == Lookup(es, w).value
  {
    if |es| > 0 {
      LookupHitsExactlyOnEquivalentKey(es[1..], w);
      if !Equivalent(es[0].key, w) {
        if exists k :: 0 <= k < |es| && Equivalent(es[k].key, w) {
          var k :| 0 <= k < |es| && Equivalent(es[k].key, w);
          assert es[1..][k - 1] == es[k];
        }
        if Lookup(es, w).Some? {
          var k :| 0 <= k < |es[1..]| && Equivalent(es[1..][k].key, w) && es[1..][k].value == Lookup(es, w).value;
          assert es[k + 1] == es[1..][k];
        }
      }
    }
  }

  lemma {:induction false} LookupFirstEquivalent(es: seq<Entry>, w: string, k: nat)
    requires k < |es| && Equivalent(es[k].key, w)
    requires forall j :: 0 <= j < k ==> !Equivalent(es[j].key, w)
    ensures Lookup(es, w) == Some(es[k].value)
  {
    if k > 0 {
      LookupFirstEquivalent(es[1..], w, k - 1);
    }
  }

  /** A map holds at most one entry per case-insensitive equivalence class. */
  lemma AtMostOneEntryPerClass(d: Dictionary, i: nat, j: nat)
    requires i < |d| && j < |d| && i != j
    ensures LowerStr(d[i].key) != LowerStr(d[j].key)
  {
    EquivalentIffSameLowercase(d[i].key, d[j].key);
    LessAsymmetric(d[i].key, d[j].key);
  }

  /** A word finds the entry whose key equals it up to letter case. */
  lemma LookupFindsKeyIgnoringCase(d: Dictionary, k: nat, w: string)
    requires k < |d| && LowerStr(d[k].key) == LowerStr(w)
    ensures Lookup(d, w) == Some(d[k].value)
  {
    EquivalentIffSameLowercase(d[k].key, w);
    forall j | 0 <= j < k
      ensures !Equivalent(d[j].key, w)
    {
      AtMostOneEntryPerClass(d, j, k);
      EquivalentIffSameLowercase(d[j].key, w);
    }
    LookupFirstEquivalent(d, w, k);
  }

  /** A miss means no key equals the word up to letter case. */
  lemma LookupMissesIffNoKeyMatches(d: Dictionary, w: string)
    ensures Lookup(d, w).None? <==> forall k :: 0 <= k < |d| ==> LowerStr(d[k].key) != LowerStr(w)
  {
    LookupHitsExactlyOnEquivalentKey(d, w);
    forall k | 0 <= k < |d|
      ensures Equivalent(d[k].key, w) <==> LowerStr(d[k].key) == LowerStr(w)
    {
      EquivalentIffSameLowercase(d[k].key, w);
    }
  }

  /** Two words that differ only in letter case look up the same thing. */
  lemma {:induction false} LookupIgnoresCase(es: seq<Entry>, w1: string, w2: string)
    requires LowerStr(w1) == LowerStr(w2)
    ensures Lookup(es, w1) == Lookup(es, w2)
  {
    if |es| > 0 {
      EquivalentIffSameLowercase(es[0].key, w1);
      EquivalentIffSameLowercase(es[0].key, w2);
      LookupIgnoresCase(es[1..], w1, w2);
    }
  }

  /** A dictionary with key "Hello" answers "HELLO" and "hello" alike. */
  lemma HelloFindsItsKeyInAnyCase()
    ensures Lookup([Entry("Hello", "Bonjour")], "HELLO") == Some("Bonjour")
    ensures Lookup([Entry("Hello", "Bonjour")], "hello") == Some("Bonjour")
    ensures Lookup([Entry("Hello", "Bonjour")], "help") == None
  {
    var d: Dictionary := [Entry("Hello", "Bonjour")];
    assert LowerStr("Hello") == "hello";
    assert LowerStr("HELLO") == "hello";
    assert LowerStr("help") == "help";
    LookupFindsKeyIgnoringCase(d, 0, "HELLO");
    LookupFindsKeyIgnoringCase(d, 0, "hello");
    LookupMissesIffNoKeyMatches(d, "help");
  }

  /** `std::map::find`: a binary search for the first key that is not less than `word`,
      followed by the test that `word` is not less than that key either. */
  method Find(d: Dictionary, word: string) returns (r: Option<string>)
    ensures r == Lookup(d, word)
  {
    var lo, hi := 0, |d|;
    while lo < hi
      invariant 0 <= lo <= hi <= |d|
      invariant forall k :: 0 <= k < lo ==> Less(d[k].key, word)
      invariant forall k :: hi <= k < |d| ==> !Less(d[k].key, word)
    {
      var mid := (lo + hi) / 2;
      if Less(d[mid].key, word) {
        forall k | 0 <= k < mid
          ensures Less(d[k].key, word)
        {
          LessTransitive(d[k].key, d[mid].key, word);
        }
        lo := mid + 1;
      } else {
        forall k | mid < k < |d|
          ensures !Less(d[k].key, word)
        {
          if Less(d[k].key, word) {
            LessTransitive(d[mid].key, d[k].key, word);
          }
        }
        hi := mid;
      }
    }
    if lo < |d| && !Less(word, d[lo].key) {
      LookupFirstEquivalent(d, word, lo);
      r := Some(d[lo].value);
    } else {
      forall k | 0 <= k < |d|
        ensures !Equivalent(d[k].key, word)
      {
        if lo < k {
          if !Less(word, d[k].key) {
            LessTransitive(word, d[lo].key, d[k].key);
          }
        }
      }
      LookupHitsExactlyOnEquivalentKey(d, word);
      r := None;
    }
  }

}

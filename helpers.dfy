/**
 * The duplicate-character check of helpers.py: `has_unique_characters` counts
 * every character of a string and answers False as soon as one count exceeds 1.
 */
module Helpers {

  /** The meaning of the check: no character is counted more than once. */
  ghost predicate Distinct(s: string) {
    forall c :: multiset(s)[c] <= 1
  }

  /** An independent reading of the same property: no two positions hold the same character. */
  ghost predicate NoRepeats(s: string) {
    forall i, j :: 0 <= i < j < |s| ==> s[i] != s[j]
  }

  /** dict(Counter(s)): every character of s mapped to its number of occurrences. */
  method CountCharacters(s: string) returns (counts: map<char, nat>)
    ensures forall c :: c in counts <==> c in multiset(s)
    ensures forall c :: c in counts ==> counts[c] == multiset(s)[c]
  {
    counts := map[];
    var i := 0;
    while i < |s|
      invariant 0 <= i <= |s|
      invariant forall c :: c in counts ==> counts[c] == multiset(s[..i])[c]
      invariant forall c :: c in counts <==> c in multiset(s[..i])
    {
      assert s[..i + 1] == s[..i] + [s[i]];
      var c := s[i];
      counts := counts[c := if c in counts then counts[c] + 1 else 1];
      i := i + 1;
    }
    assert s[..i] == s;
  }

  /**
   * has_unique_characters: build the table of character counts, then scan its
   * entries and stop with false at the first count above 1.
   */
  method HasUniqueCharacters(s: string) returns (unique: bool)
    ensures unique <==> Distinct(s)
    ensures unique <==> NoRepeats(s)
  {
    var counts := CountCharacters(s);
    DistinctIffNoRepeats(s);
    var pending := counts.Keys;
    while pending != {}
      invariant pending <= counts.Keys
      invariant forall c :: c in counts && c !in pending ==> counts[c] <= 1
      decreases |pending|
    {
      var c :| c in pending;
      if counts[c] > 1 {
        return false;
      }
      pending := pending - {c};
    }
    return true;
  }

  /** Counting characters and comparing positions agree, in both directions. */
  lemma {:induction false} DistinctIffNoRepeats(s: string)
    ensures Distinct(s) <==> NoRepeats(s)
  {
    if s != [] {
      var x, rest := s[0], s[1..];
      assert s == [x] + rest;
      assert multiset(s) == multiset{x} + multiset(rest);
      DistinctIffNoRepeats(rest);
      // Both sides say: the tail is duplicate-free and does not contain the head.
      assert Distinct(s) <==> Distinct(rest) && x !in rest by {
        if Distinct(s) {
          forall c ensures multiset(rest)[c] <= 1 {
            assert multiset(s)[c] >= multiset(rest)[c];
          }
          assert multiset(s)[x] == multiset(rest)[x] + 1;
        }
        if Distinct(rest) && x !in rest {
          forall c ensures multiset(s)[c] <= 1 {
            if c == x {
              assert multiset(rest)[x] == 0;
            }
          }
        }
      }
      assert NoRepeats(s) <==> NoRepeats(rest) && x !in rest by {
        if NoRepeats(s) {
          forall i, j | 0 <= i < j < |rest| ensures rest[i] != rest[j] {
            assert rest[i] == s[i + 1] && rest[j] == s[j + 1];
          }
          forall k | 0 <= k < |rest| ensures rest[k] != x {
            assert rest[k] == s[k + 1];
          }
        }
        if NoRepeats(rest) && x !in rest {
          forall i, j | 0 <= i < j < |s| ensures s[i] != s[j] {
            assert s[j] == rest[j - 1];
            if i > 0 {
              assert s[i] == rest[i - 1];
            }
          }
        }
      }
    }
  }

  /** The empty string passes the check: there are no counts to inspect. */
  lemma EmptyIsDistinct()
    ensures Distinct("") && NoRepeats("")
  {
  }

  /** A character that occurs at two positions makes the check fail. */
  lemma RepeatedCharacterIsNotDistinct(s: string, i: nat, j: nat)
    requires i < j < |s| && s[i] == s[j]
    ensures !Distinct(s)
  {
    DistinctIffNoRepeats(s);
  }

  /** Only the counts matter, so rearranging the characters keeps the answer. */
  lemma PermutationKeepsNoRepeats(s: string, t: string)
    requires multiset(s) == multiset(t)
    ensures NoRepeats(s) <==> NoRepeats(t)
  {
    DistinctIffNoRepeats(s);
    DistinctIffNoRepeats(t);
  }
}

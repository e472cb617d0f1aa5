/**
 * Candidate light names "Light 1", "Light 2", ... and the lowest free one.
 *
 * A name is the literal prefix "Light " followed by the decimal text of a
 * positive index.  The decimal text comes with its parser, so the map from
 * index to name is injective; that is what makes the search for a free name
 * terminate (n names can block at most n indices) and what makes the freed
 * name of a deleted light the next one handed out.
 */
module Naming {

  /** The character for one decimal digit. */
  function DigitChar(d: nat): (c: char)
    requires d < 10
    ensures '0' <= c <= '9'
  {
    (48 + d) as char
  }

  /** The value of a decimal digit character (0 for anything else). */
  function DigitValue(c: char): nat
  {
    if '0' <= c <= '9' then c as int - 48 else 0
  }

  /** Decimal text of n, most significant digit first, no leading zeros. */
  function NatToString(n: nat): (s: string)
    ensures |s| >= 1
    ensures forall i :: 0 <= i < |s| ==> '0' <= s[i] <= '9'
    ensures |s| == 1 <==> n < 10
    ensures |s| > 1 ==> s[0] != '0'
    decreases n
  {
    if n < 10 then [DigitChar(n)] else NatToString(n / 10) + [DigitChar(n % 10)]
  }

  /** Reads decimal text back as a number. */
  function ParseNat(s: string): nat
  {
    if s == [] then 0 else 10 * ParseNat(s[..|s| - 1]) + DigitValue(s[|s| - 1])
  }

  lemma {:induction false} NatToStringRoundTrip(n: nat)
    ensures ParseNat(NatToString(n)) == n
    decreases n
  {
    var s := NatToString(n);
    if n < 10 {
      assert s[..|s| - 1] == [];
    } else {
      assert s[..|s| - 1] == NatToString(n / 10);
      NatToStringRoundTrip(n / 10);
    }
  }

  lemma NatToStringInjective(a: nat, b: nat)
    ensures NatToString(a) == NatToString(b) <==> a == b
  {
    NatToStringRoundTrip(a);
    NatToStringRoundTrip(b);
  }

  const Prefix: string := "Light "

  /** The name tried for index k: "Light " followed by the decimal text of k. */
  function Candidate(k: nat): (name: string)
    ensures |name| > |Prefix| && name[..|Prefix|] == Prefix
    ensures name[|Prefix|..] == NatToString(k)
  {
    Prefix + NatToString(k)
  }

  lemma CandidateInjective(a: nat, b: nat)
    ensures Candidate(a) == Candidate(b) <==> a == b
  {
    if Candidate(a) == Candidate(b) {
      assert NatToString(a) == Candidate(a)[|Prefix|..];
      NatToStringInjective(a, b);
    }
  }

  lemma SmallCandidates()
    ensures Candidate(1) == "Light 1" && Candidate(2) == "Light 2" && Candidate(3) == "Light 3"
  {
  }

  /** Every candidate below index k is held by some name in names. */
  ghost predicate AllTakenBelow(names: seq<string>, k: nat)
  {
    forall j :: 1 <= j < k ==> Candidate(j) in names
  }

  /** k is the smallest positive index whose candidate nobody holds. */
  ghost predicate IsLowestFree(names: seq<string>, k: nat)
  {
    1 <= k && Candidate(k) !in names && AllTakenBelow(names, k)
  }

  ghost function CandidatesUpTo(k: nat): set<string>
  {
    set j | 1 <= j <= k :: Candidate(j)
  }

  ghost function ElementSet(names: seq<string>): set<string>
  {
    set x | x in names
  }

  lemma {:induction false} CandidatesUpToSize(k: nat)
    ensures |CandidatesUpTo(k)| == k
  {
    if k == 0 {
      assert CandidatesUpTo(0) == {};
    } else {
      CandidatesUpToSize(k - 1);
      assert CandidatesUpTo(k) == CandidatesUpTo(k - 1) + {Candidate(k)};
      forall j | 1 <= j <= k - 1
        ensures Candidate(j) != Candidate(k)
      {
        CandidateInjective(j, k);
      }
    }
  }

  lemma {:induction false} ElementSetSize(names: seq<string>)
    ensures |ElementSet(names)| <= |names|
  {
    if names != [] {
      var init := names[..|names| - 1];
      ElementSetSize(init);
      assert ElementSet(names) == ElementSet(init) + {names[|names| - 1]} by {
        assert names == init + [names[|names| - 1]];
      }
    }
  }

  lemma SubsetSize(a: set<string>, b: set<string>)
    requires a <= b
    ensures |a| <= |b|
  {
    assert b == a + (b - a);
  }

  /**
   * Pigeonhole: if the k - 1 distinct candidates below k are all held,
   * there are at least k - 1 names.
   */
  lemma PigeonholeBound(names: seq<string>, k: nat)
    requires 1 <= k && AllTakenBelow(names, k)
    ensures k <= |names| + 1
  {
    assert CandidatesUpTo(k - 1) <= ElementSet(names);
    CandidatesUpToSize(k - 1);
    ElementSetSize(names);
    SubsetSize(CandidatesUpTo(k - 1), ElementSet(names));
  }

  /** The lowest free index at or above k, given that everything below k is held. */
  ghost function SearchFrom(names: seq<string>, k: nat): (r: nat)
    requires 1 <= k && AllTakenBelow(names, k)
    ensures k <= r <= |names| + 1
    ensures IsLowestFree(names, r)
    decreases |names| + 1 - k
  {
    PigeonholeBound(names, k);
    if Candidate(k) in names then
      PigeonholeBound(names, k + 1);
      SearchFrom(names, k + 1)
    else
      k
  }

  /** The index of the name a new light gets. */
  ghost function LowestFreeIndex(names: seq<string>): (r: nat)
    ensures 1 <= r <= |names| + 1
    ensures IsLowestFree(names, r)
  {
    SearchFrom(names, 1)
  }

  /** The name a new light gets: the candidate at the lowest free index. */
  ghost function UniqueLightName(names: seq<string>): (name: string)
    ensures name !in names
  {
    Candidate(LowestFreeIndex(names))
  }

  /** The lowest free index is the only index that is free with all below taken. */
  lemma LowestFreeUnique(names: seq<string>, k: nat)
    ensures IsLowestFree(names, k) <==> k == LowestFreeIndex(names)
  {
  }

  /** The names "Light 1" ... "Light k", in order. */
  ghost function Consecutive(k: nat): (names: seq<string>)
  {
    seq(k, i requires 0 <= i => Candidate(i + 1))
  }

  lemma ConsecutiveLowestFree(k: nat)
    ensures LowestFreeIndex(Consecutive(k)) == k + 1
  {
    var names := Consecutive(k);
    forall j | 1 <= j < k + 1
      ensures Candidate(j) in names
    {
      assert names[j - 1] == Candidate(j);
    }
    if Candidate(k + 1) in names {
      var i :| 0 <= i < k && names[i] == Candidate(k + 1);
      CandidateInjective(i + 1, k + 1);
    }
    LowestFreeUnique(names, k + 1);
  }

  lemma ConsecutiveSnoc(k: nat)
    ensures Consecutive(k + 1) == Consecutive(k) + [Candidate(k + 1)]
  {
  }

  /** The names after k successive creations that start from no lights. */
  ghost function Creations(k: nat): (names: seq<string>)
    ensures |names| == k
    ensures forall i :: 0 <= i < k - 1 ==> names[i] != names[k - 1]
  {
    if k == 0 then [] else Creations(k - 1) + [UniqueLightName(Creations(k - 1))]
  }

  /** One more creation extends the names of k creations to those of k + 1. */
  lemma CreationsStep(names: seq<string>, k: nat)
    requires names == Creations(k)
    ensures names + [UniqueLightName(names)] == Creations(k + 1)
  {
  }

  /** k creations from nothing give "Light 1" ... "Light k", in order. */
  lemma {:induction false} CreationsAreConsecutive(k: nat)
    ensures Creations(k) == Consecutive(k)
  {
    if k > 0 {
      var before := Creations(k - 1);
      assert Creations(k) == before + [UniqueLightName(before)];
      CreationsAreConsecutive(k - 1);
      ConsecutiveLowestFree(k - 1);
      ConsecutiveSnoc(k - 1);
    }
  }

  /**
   * Removing the only holder of "Light j", where j was below the lowest free
   * index, makes j the lowest free index: the freed name is handed out next.
   */
  lemma RemovedNameIsReused(names: seq<string>, p: nat, j: nat)
    requires p < |names| && names[p] == Candidate(j)
    requires forall q :: 0 <= q < |names| && q != p ==> names[q] != Candidate(j)
    requires 1 <= j < LowestFreeIndex(names)
    ensures LowestFreeIndex(names[..p] + names[p + 1..]) == j
  {
    var rest := names[..p] + names[p + 1..];
    forall i | 1 <= i < j
      ensures Candidate(i) in rest
    {
      var q :| 0 <= q < |names| && names[q] == Candidate(i);
      CandidateInjective(i, j);
      if q < p {
        assert rest[q] == names[q];
      } else {
        assert rest[q - 1] == names[q];
      }
    }
    LowestFreeUnique(rest, j);
  }

  /** Deleting "Light j" from "Light 1" ... "Light k" makes the next name "Light j" again. */
  lemma ConsecutiveRefill(k: nat, j: nat)
    requires 1 <= j <= k
    ensures UniqueLightName(Consecutive(k)[..j - 1] + Consecutive(k)[j..]) == Candidate(j)
  {
    var names := Consecutive(k);
    ConsecutiveLowestFree(k);
    forall q | 0 <= q < k && q != j - 1
      ensures names[q] != Candidate(j)
    {
      CandidateInjective(q + 1, j);
    }
    RemovedNameIsReused(names, j - 1, j);
  }
}

/**
 * Exposing commented-out tables: `str.replace("<!--", "")`, which scans the
 * page left to right and deletes every non-overlapping occurrence of the
 * comment opener, leaving the closers `-->` where they are.
 */
module Sanitize {

  const OPENER := "<!--"
  const CLOSER := "-->"

  /** An opener starts at position `i` of `s`. */
  predicate OpenerAt(s: string, i: nat) {
    i + |OPENER| <= |s| && s[i..i + |OPENER|] == OPENER
  }

  /** The replacement scan, from position `i` to the end of `s`. */
  function StripFrom(s: string, i: nat): string
    decreases |s| - i
  {
    if i >= |s| then []
    else if OpenerAt(s, i) then StripFrom(s, i + |OPENER|)
    else [s[i]] + StripFrom(s, i + 1)
  }

  /** `s.replace("<!--", "")`: four characters shorter for every opener it removes. */
  function StripOpeners(s: string): (r: string)
    ensures |r| == |s| - |OPENER| * |Removed(s)|
  {
    StripFromKeeps(s, 0);
    StripFromCount(s, 0);
    StripFrom(s, 0)
  }

  /** Start positions of the occurrences the scan from `i` removes, in order. */
  function RemovedFrom(s: string, i: nat): seq<nat>
    decreases |s| - i
  {
    if i >= |s| then []
    else if OpenerAt(s, i) then [i] + RemovedFrom(s, i + |OPENER|)
    else RemovedFrom(s, i + 1)
  }

  /** Positions the scan from `i` copies to the output, in order. */
  function KeptFrom(s: string, i: nat): seq<nat>
    decreases |s| - i
  {
    if i >= |s| then []
    else if OpenerAt(s, i) then KeptFrom(s, i + |OPENER|)
    else [i] + KeptFrom(s, i + 1)
  }

  function Removed(s: string): seq<nat> { RemovedFrom(s, 0) }
  function Kept(s: string): seq<nat> { KeptFrom(s, 0) }

  /** A comment closer starts at position `i` of `s`. */
  predicate CloserAt(s: string, i: nat) {
    i + |CLOSER| <= |s| && s[i..i + |CLOSER|] == CLOSER
  }

  /** Position `p` lies inside one of the removed occurrences `removed`. */
  ghost predicate Covered(removed: seq<nat>, p: int) {
    exists j :: 0 <= j < |removed| && removed[j] <= p < removed[j] + |OPENER|
  }

  ghost predicate StrictlyIncreasing(xs: seq<nat>) {
    forall j, k :: 0 <= j < k < |xs| ==> xs[j] < xs[k]
  }

  lemma {:induction false} KeptFromFacts(s: string, i: nat)
    ensures forall j :: 0 <= j < |KeptFrom(s, i)| ==> i <= KeptFrom(s, i)[j] < |s|
    ensures StrictlyIncreasing(KeptFrom(s, i))
    ensures forall j :: 0 <= j < |KeptFrom(s, i)| ==> !OpenerAt(s, KeptFrom(s, i)[j])
    decreases |s| - i
  {
    if i < |s| {
      if OpenerAt(s, i) {
        KeptFromFacts(s, i + |OPENER|);
      } else {
        KeptFromFacts(s, i + 1);
      }
    }
  }

  lemma {:induction false} RemovedFromFacts(s: string, i: nat)
    ensures forall j :: 0 <= j < |RemovedFrom(s, i)| ==>
              i <= RemovedFrom(s, i)[j] && OpenerAt(s, RemovedFrom(s, i)[j])
    ensures forall j, k :: 0 <= j < k < |RemovedFrom(s, i)| ==>
              RemovedFrom(s, i)[j] + |OPENER| <= RemovedFrom(s, i)[k]
    decreases |s| - i
  {
    if i < |s| {
      if OpenerAt(s, i) {
        RemovedFromFacts(s, i + |OPENER|);
      } else {
        RemovedFromFacts(s, i + 1);
      }
    }
  }

  lemma {:induction false} StripFromKeeps(s: string, i: nat)
    ensures |StripFrom(s, i)| == |KeptFrom(s, i)|
    ensures forall j :: 0 <= j < |KeptFrom(s, i)| ==>
              KeptFrom(s, i)[j] < |s| && StripFrom(s, i)[j] == s[KeptFrom(s, i)[j]]
    decreases |s| - i
  {
    if i < |s| {
      if OpenerAt(s, i) {
        StripFromKeeps(s, i + |OPENER|);
      } else {
        StripFromKeeps(s, i + 1);
      }
    }
  }

  lemma {:induction false} StripFromCount(s: string, i: nat)
    requires i <= |s|
    ensures |KeptFrom(s, i)| + |OPENER| * |RemovedFrom(s, i)| == |s| - i
    decreases |s| - i
  {
    if i < |s| {
      if OpenerAt(s, i) {
        StripFromCount(s, i + |OPENER|);
      } else {
        StripFromCount(s, i + 1);
      }
    }
  }

  lemma {:induction false} StripFromPartition(s: string, i: nat, p: int)
    requires i <= p < |s|
    ensures p in KeptFrom(s, i) <==> !Covered(RemovedFrom(s, i), p)
    decreases |s| - i
  {
    var kept, removed := KeptFrom(s, i), RemovedFrom(s, i);
    if OpenerAt(s, i) {
      var kept', removed' := KeptFrom(s, i + |OPENER|), RemovedFrom(s, i + |OPENER|);
      assert kept == kept' && removed == [i] + removed';
      KeptFromFacts(s, i + |OPENER|);
      RemovedFromFacts(s, i + |OPENER|);
      if p < i + |OPENER| {
        assert removed[0] <= p < removed[0] + |OPENER|;
        assert p !in kept';
      } else {
        StripFromPartition(s, i + |OPENER|, p);
        if Covered(removed', p) {
          var j :| 0 <= j < |removed'| && removed'[j] <= p < removed'[j] + |OPENER|;
          assert removed[j + 1] == removed'[j];
        }
        if Covered(removed, p) {
          var j :| 0 <= j < |removed| && removed[j] <= p < removed[j] + |OPENER|;
          assert j > 0 && removed'[j - 1] == removed[j];
        }
      }
    } else {
      var kept', removed' := KeptFrom(s, i + 1), RemovedFrom(s, i + 1);
      assert kept == [i] + kept' && removed == removed';
      RemovedFromFacts(s, i + 1);
      if p == i {
        assert p in kept;
      } else {
        StripFromPartition(s, i + 1, p);
      }
    }
  }

  /**
   * The output is the input's characters outside the removed occurrences, in
   * order: output character `j` is input character `Kept(s)[j]`, the kept
   * positions increase, and the output is shorter by four per removal.
   */
  lemma StripOpenersKeepsInOrder(s: string)
    ensures |StripOpeners(s)| == |Kept(s)| == |s| - |OPENER| * |Removed(s)|
    ensures StrictlyIncreasing(Kept(s))
    ensures forall j :: 0 <= j < |Kept(s)| ==>
              Kept(s)[j] < |s| && StripOpeners(s)[j] == s[Kept(s)[j]]
  {
    StripFromKeeps(s, 0);
    StripFromCount(s, 0);
    KeptFromFacts(s, 0);
  }

  /**
   * Every position of the input is either copied or lies inside exactly one
   * removed occurrence, and every removed occurrence is an opener; the
   * removed occurrences do not overlap.
   */
  lemma StripOpenersPartition(s: string)
    ensures forall j :: 0 <= j < |Removed(s)| ==> OpenerAt(s, Removed(s)[j])
    ensures forall j, k :: 0 <= j < k < |Removed(s)| ==> Removed(s)[j] + |OPENER| <= Removed(s)[k]
    ensures forall p :: 0 <= p < |s| ==> (p in Kept(s) <==> !Covered(Removed(s), p))
  {
    RemovedFromFacts(s, 0);
    forall p | 0 <= p < |s| ensures p in Kept(s) <==> !Covered(Removed(s), p) {
      StripFromPartition(s, 0, p);
    }
  }

  /** One pass leaves no opener at any position it scanned and copied. */
  lemma StripOpenersScanPositions(s: string)
    ensures forall j :: 0 <= j < |Kept(s)| ==> !OpenerAt(s, Kept(s)[j])
    ensures forall j :: 0 <= j < |Removed(s)| ==> OpenerAt(s, Removed(s)[j])
  {
    KeptFromFacts(s, 0);
    RemovedFromFacts(s, 0);
  }

  /** Two neighbouring copied positions stay neighbours in the output. */
  lemma KeptNeighbours(s: string, p: int)
    requires p in Kept(s) && p + 1 in Kept(s)
    ensures exists j :: 0 <= j < |Kept(s)| - 1 && Kept(s)[j] == p && Kept(s)[j + 1] == p + 1
  {
    var kept := Kept(s);
    KeptFromFacts(s, 0);
    var j :| 0 <= j < |kept| && kept[j] == p;
    var k :| 0 <= k < |kept| && kept[k] == p + 1;
    assert j < k;
    assert kept[j + 1] <= kept[k];
  }

  /** A comment closer none of whose characters was removed survives intact. */
  lemma StripOpenersKeepsCloser(s: string, p: nat)
    requires CloserAt(s, p)
    requires !Covered(Removed(s), p) && !Covered(Removed(s), p + 1) && !Covered(Removed(s), p + 2)
    ensures exists j :: 0 <= j < |Kept(s)| && Kept(s)[j] == p && CloserAt(StripOpeners(s), j)
  {
    var kept, r := Kept(s), StripOpeners(s);
    StripFromPartition(s, 0, p);
    StripFromPartition(s, 0, p + 1);
    StripFromPartition(s, 0, p + 2);
    KeptNeighbours(s, p);
    KeptNeighbours(s, p + 1);
    var j :| 0 <= j < |kept| - 1 && kept[j] == p && kept[j + 1] == p + 1;
    var j' :| 0 <= j' < |kept| - 1 && kept[j'] == p + 1 && kept[j' + 1] == p + 2;
    assert j' == j + 1 by {
      KeptFromFacts(s, 0);
    }
    StripFromKeeps(s, 0);
    assert r[j] == s[p] && r[j + 1] == s[p + 1] && r[j + 2] == s[p + 2];
    assert r[j..j + 3] == CLOSER;
    assert CloserAt(r, j);
  }

  /** A page with no opener anywhere passes through unchanged. */
  lemma {:induction false} StripFromNoOpener(s: string, i: nat)
    requires forall p :: i <= p ==> !OpenerAt(s, p)
    ensures StripFrom(s, i) == if i < |s| then s[i..] else []
    decreases |s| - i
  {
    if i < |s| {
      StripFromNoOpener(s, i + 1);
      assert s[i..] == [s[i]] + s[i + 1..];
    }
  }

  lemma StripOpenersNoOpener(s: string)
    requires forall p :: 0 <= p ==> !OpenerAt(s, p)
    ensures StripOpeners(s) == s
  {
    StripFromNoOpener(s, 0);
  }

  /**
   * Removal can join the pieces of a new opener, so a second pass can change
   * the result: stripping is not idempotent.
   */
  lemma StripOpenersNotIdempotent()
    ensures StripOpeners("<!<!----") == "<!--"
    ensures StripOpeners(StripOpeners("<!<!----")) == ""
  {
    var s := "<!<!----";
    assert s[0..4][2] != OPENER[2] && s[1..5][0] != OPENER[0];
    assert !OpenerAt(s, 0) && !OpenerAt(s, 1) && OpenerAt(s, 2);
    assert !OpenerAt(s, 6) && !OpenerAt(s, 7);
    assert StripFrom(s, 8) == [];
    assert StripFrom(s, 6) == "--";
    assert StripFrom(s, 0) == "<!--";
    assert OpenerAt("<!--", 0);
  }
}

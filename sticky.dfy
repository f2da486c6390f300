/** The per-frame body of the live search loop: pick the largest detected
    face, find the database record most similar to it, keep the last fifteen
    best matches, and replace the displayed top four only when the majority
    vote of that window is new and stable ("sticky" match). A frame without
    faces clears the window and keeps what is displayed. */
module StickyMatch {
  import opened Wrappers
  import opened Select

  const MaxHistory: nat := 15
  const StableVotes: nat := 8
  const PanelSize: nat := 4

  /** A detection: its box corners and the similarity of its normalised
      embedding to each record of the database, in database order. */
  datatype Face = Face(x0: real, y0: real, x1: real, y1: real, similarities: seq<real>)

  function Area(f: Face): real {
    (f.x1 - f.x0) * (f.y1 - f.y0)
  }

  function Areas(faces: seq<Face>): (a: seq<real>)
    ensures |a| == |faces|
    ensures forall i :: 0 <= i < |faces| ==> a[i] == Area(faces[i])
  {
    seq(|faces|, i requires 0 <= i < |faces| => Area(faces[i]))
  }

  // ---------------------------------------------------------------------
  // The bounded history

  /** Append, then drop the oldest entry once the window is over capacity:
      a window of at most fifteen becomes the last fifteen of it and `x`. */
  function Push(history: seq<nat>, x: nat): (r: seq<nat>)
    ensures |history| <= MaxHistory ==> r == LastN(history + [x], MaxHistory)
  {
    var h := history + [x];
    if |h| > MaxHistory then h[1..] else h
  }

  /** The last `n` elements of `s` (all of them when there are fewer). */
  function LastN(s: seq<nat>, n: nat): (r: seq<nat>)
    ensures |r| == Min(|s|, n)
  {
    if |s| <= n then s else s[|s| - n..]
  }

  /** The history after pushing `xs`, in order, onto `h`: from a window of
      at most fifteen, the last fifteen of `h` followed by `xs`. */
  function PushAll(h: seq<nat>, xs: seq<nat>): (r: seq<nat>)
    ensures |h| <= MaxHistory ==> r == LastN(h + xs, MaxHistory)
    decreases |xs|
  {
    if |xs| == 0 then
      assert h + xs == h;
      h
    else
      var h' := Push(h, xs[0]);
      LastNConcat(h + [xs[0]], xs[1..], MaxHistory);
      assert h + [xs[0]] + xs[1..] == h + xs;
      PushAll(h', xs[1..])
  }

  /** Keeping the last `n` before appending more changes nothing of the
      last `n` after. */
  lemma LastNConcat(a: seq<nat>, b: seq<nat>, n: nat)
    ensures LastN(LastN(a, n) + b, n) == LastN(a + b, n)
  {
    if |a| > n {
      var c := a[|a| - n..] + b;
      assert c == (a + b)[|a| - n..];
      assert c[|c| - n..] == (a + b)[|a + b| - n..];
    }
  }

  /** One push keeps the window equal to the last fifteen values pushed. */
  lemma PushWindow(pushed: seq<nat>, x: nat)
    ensures Push(LastN(pushed, MaxHistory), x) == LastN(pushed + [x], MaxHistory)
  {
    LastNConcat(pushed, [x], MaxHistory);
  }

  /** A push of a value below `n` keeps every entry below `n`. */
  lemma PushBelow(history: seq<nat>, x: nat, n: nat)
    requires x < n && forall i :: 0 <= i < |history| ==> history[i] < n
    ensures forall i :: 0 <= i < |Push(history, x)| ==> Push(history, x)[i] < n
  {
    var h := history + [x];
    assert forall i :: 0 <= i < |h| ==> h[i] < n;
  }

  /** After any run of pushes the history is exactly the last (at most
      fifteen) values pushed, in the order they were pushed. */
  lemma PushAllWindow(pushed: seq<nat>, xs: seq<nat>)
    ensures PushAll(LastN(pushed, MaxHistory), xs) == LastN(pushed + xs, MaxHistory)
  {
    LastNConcat(pushed, xs, MaxHistory);
  }

  // ---------------------------------------------------------------------
  // The majority vote (`Counter(history).most_common(1)[0]`)

  /** `id` has the largest number of votes in `h`, `count` is that number,
      and among ids with as many votes `id` is the one seen first, which is
      the winner `Counter` reports since it keeps first-insertion order. */
  predicate IsMajority(h: seq<nat>, id: nat, count: nat) {
    && id in h
    && count == multiset(h)[id]
    && (forall x :: x in h ==> multiset(h)[x] <= count)
    && (forall j :: 0 <= j < |h| && multiset(h)[h[j]] == count ==> id in h[..j + 1])
  }

  /** The vote counts of `Counter(h)`: one entry per id seen, with its number of votes. */
  method Tally(h: seq<nat>) returns (tally: map<nat, nat>)
    ensures forall x :: x in tally <==> x in h
    ensures forall x :: x in tally ==> tally[x] == multiset(h)[x]
  {
    tally := map[];
    var i := 0;
    while i < |h|
      invariant 0 <= i <= |h|
      invariant forall x :: x in tally <==> x in h[..i]
      invariant forall x :: x in tally ==> tally[x] == multiset(h[..i])[x]
    {
      var x := h[i];
      assert h[..i + 1] == h[..i] + [x];
      tally := tally[x := if x in tally then tally[x] + 1 else 1];
      i := i + 1;
    }
    assert h[..|h|] == h;
  }

  method MostCommon(h: seq<nat>) returns (id: nat, count: nat)
    requires |h| > 0
    ensures IsMajority(h, id, count)
  {
    var tally := Tally(h);
    // Keep the first id with the strictly largest tally.
    id, count := h[0], tally[h[0]];
    ghost var at := 0;
    var i := 1;
    while i < |h|
      invariant 1 <= i <= |h|
      invariant at < i && id == h[at] && count == multiset(h)[id]
      invariant forall j :: 0 <= j < i ==> multiset(h)[h[j]] <= count
      invariant forall j :: 0 <= j < at ==> multiset(h)[h[j]] < count
    {
      if tally[h[i]] > count {
        id, count, at := h[i], tally[h[i]], i;
      }
      i := i + 1;
    }
    MajorityOfScan(h, id, count, at);
  }

  /** What the scan of `MostCommon` ends with makes its pick the majority:
      no count beats it, and it is at the first position reaching it. */
  lemma MajorityOfScan(h: seq<nat>, id: nat, count: nat, at: nat)
    requires at < |h| && id == h[at] && count == multiset(h)[id]
    requires forall j :: 0 <= j < |h| ==> multiset(h)[h[j]] <= count
    requires forall j :: 0 <= j < at ==> multiset(h)[h[j]] < count
    ensures IsMajority(h, id, count)
  {
    forall x | x in h
      ensures multiset(h)[x] <= count
    {
      var j :| 0 <= j < |h| && h[j] == x;
      assert multiset(h)[h[j]] <= count;
    }
    forall j | 0 <= j < |h| && multiset(h)[h[j]] == count
      ensures id in h[..j + 1]
    {
      if j >= at {
        assert h[..j + 1][at] == id;
      }
    }
  }

  // ---------------------------------------------------------------------
  // The displayed top four (`np.argsort(similarities)[-4:][::-1]`)

  /** `sel` is a top-four ranking of `sims`: min(4, |sims|) distinct record
      indices, in non-increasing similarity, none beaten by an index left out.
      How equal similarities are ordered is not fixed, because `np.argsort`
      uses a sort that is not stable. */
  predicate IsTopSelection(sims: seq<real>, sel: seq<nat>) {
    && |sel| == Min(PanelSize, |sims|)
    && (forall i :: 0 <= i < |sel| ==> sel[i] < |sims|)
    && (forall i, j :: 0 <= i < j < |sel| ==> sel[i] != sel[j])
    && (forall i, j :: 0 <= i < j < |sel| ==> sims[sel[i]] >= sims[sel[j]])
    && (forall k, i :: 0 <= k < |sims| && k !in sel && 0 <= i < |sel| ==> sims[k] <= sims[sel[i]])
  }

  /** The first displayed index has the largest similarity of all. */
  lemma TopSelectionHead(sims: seq<real>, sel: seq<nat>)
    requires IsTopSelection(sims, sel) && |sims| > 0
    ensures forall k :: 0 <= k < |sims| ==> sims[k] <= sims[sel[0]]
  {
    forall k | 0 <= k < |sims|
      ensures sims[k] <= sims[sel[0]]
    {
      if k in sel {
        var i :| 0 <= i < |sel| && sel[i] == k;
        if i > 0 {
          assert sims[sel[0]] >= sims[sel[i]];
        }
      }
    }
  }

  method TopIndices(sims: seq<real>) returns (sel: seq<nat>)
    ensures IsTopSelection(sims, sel)
  {
    sel := [];
    while |sel| < Min(PanelSize, |sims|)
      invariant |sel| <= Min(PanelSize, |sims|)
      invariant forall i :: 0 <= i < |sel| ==> sel[i] < |sims|
      invariant forall i, j :: 0 <= i < j < |sel| ==> sel[i] != sel[j]
      invariant forall i, j :: 0 <= i < j < |sel| ==> sims[sel[i]] >= sims[sel[j]]
      invariant forall k, i :: 0 <= k < |sims| && k !in sel && 0 <= i < |sel| ==> sims[k] <= sims[sel[i]]
      decreases Min(PanelSize, |sims|) - |sel|
    {
      var best: int := -1;
      var j := 0;
      while j < |sims|
        invariant 0 <= j <= |sims|
        invariant best < 0 ==> forall k :: 0 <= k < j ==> k in sel
        invariant best >= 0 ==> best < j && best !in sel
        invariant best >= 0 ==> forall k :: 0 <= k < j && k !in sel ==> sims[k] <= sims[best]
      {
        if j !in sel && (best < 0 || sims[j] > sims[best]) {
          best := j;
        }
        j := j + 1;
      }
      if best < 0 {
        Covered(sel, |sims|);
        assert false;
      }
      sel := sel + [best];
    }
  }

  /** A repetition-free list of indices that holds all of 0..n-1 has at least n entries. */
  lemma {:induction false} Covered(sel: seq<nat>, n: nat)
    requires forall i, j :: 0 <= i < j < |sel| ==> sel[i] != sel[j]
    requires forall k :: 0 <= k < n ==> k in sel
    ensures n <= |sel|
  {
    if n > 0 {
      assert n - 1 in sel;
      var p :| 0 <= p < |sel| && sel[p] == n - 1;
      var rest := sel[..p] + sel[p + 1..];
      forall k | 0 <= k < n - 1
        ensures k in rest
      {
        assert k in sel;
        var q :| 0 <= q < |sel| && sel[q] == k;
        if q < p {
          assert rest[q] == k;
        } else {
          assert rest[q - 1] == k;
        }
      }
      forall i, j | 0 <= i < j < |rest|
        ensures rest[i] != rest[j]
      {
        var i' := if i < p then i else i + 1;
        var j' := if j < p then j else j + 1;
        assert rest[i] == sel[i'] && rest[j] == sel[j'];
      }
      Covered(rest, n - 1);
    }
  }

  // ---------------------------------------------------------------------
  // The sticky update rule

  /** The display is replaced when nothing is shown yet, or when the
      majority differs from the first shown index and has at least 8 votes. */
  predicate Replaces(display: Option<seq<nat>>, winner: nat, votes: nat)
    requires display.Some? ==> |display.value| > 0
    ensures display.None? ==> Replaces(display, winner, votes)
    ensures display.Some? && votes < StableVotes ==> !Replaces(display, winner, votes)
    ensures display.Some? && winner == display.value[0] ==> !Replaces(display, winner, votes)
  {
    display.None? || (winner != display.value[0] && votes >= StableVotes)
  }

  /** After a frame without faces the window restarts empty, so fewer than
      eight face frames cannot give any id the eight votes a change needs. */
  lemma ResetHoldsDisplay(shown: seq<nat>, xs: seq<nat>, id: nat)
    requires |shown| > 0 && |xs| < StableVotes
    ensures !Replaces(Some(shown), id, multiset(PushAll([], xs))[id])
  {
    PushAllWindow([], xs);
    assert [] + xs == xs;
    assert PushAll([], xs) == xs;
    assert multiset(xs)[id] <= |multiset(xs)|;
  }

  /** In a window of at most fifteen frames, an id with eight votes is the
      majority, and it changes the display exactly when it is not the first
      shown index. */
  lemma EightVotesChangeDisplay(shown: seq<nat>, h: seq<nat>, id: nat, winner: nat, votes: nat)
    requires |shown| > 0 && |h| <= MaxHistory && multiset(h)[id] >= StableVotes
    requires IsMajority(h, winner, votes)
    ensures winner == id && votes == multiset(h)[id]
    ensures Replaces(Some(shown), winner, votes) <==> id != shown[0]
  {
    if winner != id {
      TwoCounts(h, winner, id);
    }
  }

  /** Two different ids together have at most `|h|` votes. */
  lemma {:induction false} TwoCounts(h: seq<nat>, a: nat, b: nat)
    requires a != b
    ensures multiset(h)[a] + multiset(h)[b] <= |h|
  {
    if h != [] {
      TwoCounts(h[1..], a, b);
      assert h == [h[0]] + h[1..];
      assert multiset(h) == multiset{h[0]} + multiset(h[1..]);
    }
  }

  // ---------------------------------------------------------------------
  // The matcher state carried across frames

  class Matcher {
    /** Number of records in the database (the length of every similarity vector). */
    const dbSize: nat
    /** Best index of each recent face frame, oldest first. */
    var history: seq<nat>
    /** The record indices on the panel, `None` before the first face. */
    var display: Option<seq<nat>>
    /** Every best index pushed since the history was last cleared. */
    ghost var pushed: seq<nat>

    ghost predicate Valid()
      reads this
    {
      && dbSize > 0
      && history == LastN(pushed, MaxHistory)
      && (forall i :: 0 <= i < |history| ==> history[i] < dbSize)
      && (display.Some? ==> |display.value| > 0 &&
                            forall i :: 0 <= i < |display.value| ==> display.value[i] < dbSize)
    }

    constructor (dbSize: nat)
      requires dbSize > 0
      ensures Valid() && this.dbSize == dbSize
      ensures history == [] && pushed == [] && display == None
    {
      this.dbSize := dbSize;
      history := [];
      pushed := [];
      display := None;
    }

    /** One frame with at least one face. */
    method FaceFrame(faces: seq<Face>) returns (main: nat, best: nat, winner: nat, votes: nat)
      requires Valid() && |faces| > 0
      requires forall f :: f in faces ==> |f.similarities| == dbSize
      modifies this
      ensures Valid()
      ensures IsFirstMax(Areas(faces), main)
      ensures IsFirstMax(faces[main].similarities, best)
      ensures pushed == old(pushed) + [best] && history == Push(old(history), best)
      ensures IsMajority(history, winner, votes)
      ensures Replaces(old(display), winner, votes) ==>
                display.Some? && IsTopSelection(faces[main].similarities, display.value)
      ensures !Replaces(old(display), winner, votes) ==> display == old(display)
    {
      main := FirstMax(Areas(faces));
      var sims := faces[main].similarities;
      assert faces[main] in faces;
      best := FirstMax(sims);
      PushBelow(history, best, dbSize);
      PushWindow(pushed, best);
      history := Push(history, best);
      pushed := pushed + [best];
      winner, votes := MostCommon(history);
      if Replaces(display, winner, votes) {
        var sel := TopIndices(sims);
        display := Some(sel);
      }
    }

    /** One frame without faces: the history is cleared, the panel stays. */
    method NoFaceFrame()
      requires Valid()
      modifies this
      ensures Valid()
      ensures history == [] && pushed == [] && display == old(display)
    {
      history := [];
      pushed := [];
    }
  }
}

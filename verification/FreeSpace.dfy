/** The longest free run, which says what can be requested before a request fails. */
module FreeSpace {
  import opened FramePool

  // There is a free run of n frames among the first limit ones.
  ghost predicate Fits(locked: set<nat>, limit: nat, n: nat) {
    n <= limit && exists first: nat :: FreeRun(locked, limit, first, n)
  }

  // The longest free run of the whole bitmap words, which both kinds of requests look at.
  ghost function Longest(locked: set<nat>, frameCount: nat): nat {
    LongestUpTo(locked, Searched(frameCount), Searched(frameCount))
  }

  ghost function LongestUpTo(locked: set<nat>, limit: nat, n: nat): nat {
    if n == 0 || Fits(locked, limit, n) then n else LongestUpTo(locked, limit, n - 1)
  }

  lemma {:induction false} LongestUpToFits(locked: set<nat>, limit: nat, n: nat, k: nat)
    requires n <= limit
    ensures LongestUpTo(locked, limit, n) <= n && Fits(locked, limit, LongestUpTo(locked, limit, n))
    ensures k <= n && Fits(locked, limit, k) ==> k <= LongestUpTo(locked, limit, n)
  {
    if n == 0 {
      assert FreeRun(locked, limit, 0, 0);
    } else if !Fits(locked, limit, n) {
      LongestUpToFits(locked, limit, n - 1, k);
    }
  }

  // The longest run is a run, and every other one is at most as long.
  lemma LongestIs(locked: set<nat>, frameCount: nat, k: nat)
    ensures Fits(locked, Searched(frameCount), Longest(locked, frameCount))
    ensures Fits(locked, Searched(frameCount), k) ==> k <= Longest(locked, frameCount)
  {
    LongestUpToFits(locked, Searched(frameCount), Searched(frameCount), k);
  }

  lemma PartOfRun(locked: set<nat>, limit: nat, first: nat, n: nat, locked': set<nat>, limit': nat, first': nat,
                  n': nat)
    requires FreeRun(locked, limit, first, n) && first <= first' && first' + n' <= first + n && limit <= limit'
    requires forall f :: f in locked' && first' <= f < first' + n' ==> f in locked
    ensures FreeRun(locked', limit', first', n')
  {
    forall f: nat | InRun(f, first', n') ensures f < limit' && f !in locked' {
      assert InRun(f, first, n);
    }
  }

  // Fewer locked frames, longer runs.
  lemma MoreFree(a: set<nat>, b: set<nat>, frameCount: nat)
    requires b <= a
    ensures Longest(b, frameCount) >= Longest(a, frameCount)
  {
    var n, limit := Longest(a, frameCount), Searched(frameCount);
    LongestIs(a, frameCount, n);
    var first: nat :| FreeRun(a, limit, first, n);
    PartOfRun(a, limit, first, n, b, limit, first, n);
    LongestIs(b, frameCount, n);
  }

  // A request that fits the longest run is met.
  lemma RequestMet(locked: set<nat>, frameCount: nat, n: nat)
    requires 1 <= n <= Longest(locked, frameCount)
    ensures exists first: nat :: FreeRun(locked, frameCount, first, n)
  {
    var limit := Searched(frameCount);
    LongestIs(locked, frameCount, n);
    var first: nat :| FreeRun(locked, limit, first, Longest(locked, frameCount));
    PartOfRun(locked, limit, first, Longest(locked, frameCount), locked, frameCount, first, n);
  }

  // Taking the lowest run there is shortens the longest one by no more than what was taken.
  lemma LowestTaken(a: set<nat>, b: set<nat>, frameCount: nat, first: nat, n: nat)
    requires n >= 1 && forall i: nat :: i < first ==> !FreeRun(a, frameCount, i, n)
    requires b <= a + Run(frameCount, first, n)
    ensures Longest(b, frameCount) + n >= Longest(a, frameCount)
  {
    var k, limit := Longest(a, frameCount), Searched(frameCount);
    if k > n {
      LongestIs(a, frameCount, k);
      var at: nat :| FreeRun(a, limit, at, k);
      PartOfRun(a, limit, at, k, a, frameCount, at, n);
      assert first <= at;
      var rest := if at < first + n then first + n else at;
      PartOfRun(a, limit, at, k, b, limit, rest, k - n);
      LongestIs(b, frameCount, k - n);
    }
  }

  // Single frames are requested from whole words only.
  lemma FrameTaken(locked: set<nat>, frameCount: nat, f: nat)
    requires f in FreeFrames(locked, frameCount) && forall g: nat :: g < f ==> g in locked
    ensures Longest(locked + {f}, frameCount) + 1 >= Longest(locked, frameCount)
  {
    forall i: nat | i < f ensures !FreeRun(locked, frameCount, i, 1) {
      Blocked(locked, frameCount, i, 1, i);
    }
    assert InRun(f, f, 1);
    LowestTaken(locked, locked + {f}, frameCount, f, 1);
  }

  lemma FrameMet(locked: set<nat>, frameCount: nat)
    requires Longest(locked, frameCount) >= 1
    ensures FreeFrames(locked, frameCount) != {}
  {
    var limit := Searched(frameCount);
    LongestIs(locked, frameCount, 1);
    var first: nat :| FreeRun(locked, limit, first, Longest(locked, frameCount));
    FreeInside(locked, limit, first, Longest(locked, frameCount), first);
    assert first in FreeFrames(locked, frameCount);
  }
}

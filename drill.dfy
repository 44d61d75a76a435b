/**
 * The session engine of the verse drill in app.py: a learner steps through a
 * deck of `n` verse cards (ids 0 .. n-1) in a traversal `order`, revealing a
 * verse, then skipping it, hiding it again to retry, or marking it memorised.
 * Once the order is used up, the skipped cards can be drilled again in a
 * second pass.
 *
 * The state lives in `Session`, whose fields are the session-state entries
 * the app keeps between reruns. Each button press and each step of a rerun is
 * one method. Randomness (`random.shuffle`, and the iteration order of
 * `list(set)`) is a sequence the caller supplies, constrained only to be a
 * rearrangement of what the app would shuffle.
 */
module Drill {
  import opened Ids

  datatype Option<T> = None | Some(value: T)

  /**
   * The invariant of a session over a deck of `n` cards. Positions from the
   * cursor on are the cards still pending in this pass; every card of the
   * deck is in exactly one of completed, skipped or pending.
   */
  predicate Coherent(n: nat, order: seq<nat>, idx: nat, completed: set<nat>, skipped: set<nat>)
  {
    && idx <= |order|
    && NoDup(order)
    && Elems(order) <= Below(n)
    && completed !! skipped
    && Elems(order[idx..]) !! completed
    && Elems(order[idx..]) !! skipped
    && completed + skipped + Elems(order[idx..]) == Below(n)
  }

  /** Every card of the deck is counted once: as completed, as skipped, or as
      one of the positions left in the order. */
  lemma Tally(n: nat, order: seq<nat>, idx: nat, completed: set<nat>, skipped: set<nat>)
    requires Coherent(n, order, idx, completed, skipped)
    ensures |completed| + |skipped| + (|order| - idx) == n
  {
    var pending := order[idx..];
    assert NoDup(pending) by {
      forall i, j | 0 <= i < j < |pending| ensures pending[i] != pending[j] {
        assert pending[i] == order[idx + i] && pending[j] == order[idx + j];
      }
    }
    NoDupSize(pending);
    BelowSize(n);
    assert |completed + skipped| == |completed| + |skipped|;
    assert |completed + skipped + Elems(pending)| == |completed + skipped| + |Elems(pending)|;
  }

  /** The completed count reaches the deck size exactly when the order is
      used up and no card is left skipped; then every card is completed. */
  lemma AllCompletedIffFinished(n: nat, order: seq<nat>, idx: nat, completed: set<nat>, skipped: set<nat>)
    requires Coherent(n, order, idx, completed, skipped)
    ensures |completed| == n <==> idx >= |order| && skipped == {}
    ensures |completed| == n <==> completed == Below(n)
  {
    Tally(n, order, idx, completed, skipped);
    BelowSize(n);
    if |completed| == n {
      assert |Below(n) - completed| == 0;
      assert Below(n) - completed == {};
    }
  }

  /**
   * The find-next loop: from position `from`, moves past every id that is
   * already completed. The result is the first position at or after `from`
   * that holds a pending id, or the end of the order.
   */
  method NextPending(order: seq<nat>, from: nat, completed: set<nat>) returns (k: nat)
    ensures from <= k
    ensures k <= |order| || k == from
    ensures k < |order| ==> order[k] !in completed
    ensures forall j | from <= j < k :: j < |order| && order[j] in completed
  {
    k := from;
    while k < |order| && order[k] in completed
      invariant from <= k
      invariant k <= |order| || k == from
      invariant forall j | from <= j < k :: j < |order| && order[j] in completed
    {
      k := k + 1;
    }
  }

  class Session {
    /** The traversal order, a list of card ids. */
    var order: seq<nat>
    /** The cursor into `order`. */
    var idx: nat
    var completed: set<nat>
    var skipped: set<nat>
    /** Whether the current verse is shown. */
    var showVerse: bool
    /** The size of the deck the session was started on. */
    var n: nat
    var started: bool
    var loadedFile: string
    var loadedVersion: string
    /** The shuffle toggle as seen on the previous rerun; `None` before the first. */
    var prevShuffle: Option<bool>

    ghost predicate Valid()
      reads this
    {
      Coherent(n, order, idx, completed, skipped)
    }

    /** An empty session state, before the first rerun. */
    constructor ()
      ensures Valid()
      ensures !started && prevShuffle == None
      ensures order == [] && idx == 0 && completed == {} && skipped == {} && !showVerse && n == 0
    {
      order, idx, completed, skipped, showVerse, n := [], 0, {}, {}, false, 0;
      started, loadedFile, loadedVersion, prevShuffle := false, "", "", None;
      assert Below(0) == {};
    }

    /**
     * init_session_state: a fresh pass over a deck of `size` cards, in the
     * identity order, or in the order `shuffled` when the toggle is on.
     */
    method Init(size: nat, shuffle: bool, shuffled: seq<nat>)
      requires shuffle ==> multiset(shuffled) == multiset(Range(size))
      modifies this`order, this`idx, this`showVerse, this`completed, this`skipped, this`started, this`n
      ensures Valid()
      ensures order == if shuffle then shuffled else Range(size)
      ensures multiset(order) == multiset(Range(size))
      ensures n == size && idx == 0 && !showVerse && completed == {} && skipped == {} && started
    {
      var indices := Range(size);
      RangeListsDeck(size);
      if shuffle {
        SameMultisetNoDup(indices, shuffled);
        indices := shuffled;
      }
      order := indices;
      idx := 0;
      showVerse := false;
      completed := {};
      skipped := {};
      started := true;
      n := size;
      assert order[idx..] == order;
    }

    /**
     * The start-up decision of each rerun: the session is initialised when
     * it was never started, or when the selected file or text version is not
     * the one loaded.
     */
    method EnsureStarted(file: string, version: string, size: nat, shuffle: bool, shuffled: seq<nat>)
      returns (reinit: bool)
      requires Valid()
      requires shuffle ==> multiset(shuffled) == multiset(Range(size))
      modifies this`order, this`idx, this`showVerse, this`completed, this`skipped, this`started, this`n
      modifies this`loadedFile, this`loadedVersion
      ensures Valid()
      ensures reinit == (!old(started) || old(loadedFile) != file || old(loadedVersion) != version)
      ensures reinit ==> order == (if shuffle then shuffled else Range(size)) && n == size && idx == 0
                         && !showVerse && completed == {} && skipped == {} && started
                         && loadedFile == file && loadedVersion == version
      ensures !reinit ==> unchanged(this)
    {
      reinit := !started || loadedFile != file || loadedVersion != version;
      if reinit {
        Init(size, shuffle, shuffled);
        loadedFile := file;
        loadedVersion := version;
      }
    }

    /** The restart button: initialise again, whatever the state. */
    method Restart(file: string, version: string, size: nat, shuffle: bool, shuffled: seq<nat>)
      requires shuffle ==> multiset(shuffled) == multiset(Range(size))
      modifies this`order, this`idx, this`showVerse, this`completed, this`skipped, this`started, this`n
      modifies this`loadedFile, this`loadedVersion
      ensures Valid()
      ensures order == (if shuffle then shuffled else Range(size)) && n == size && idx == 0
      ensures !showVerse && completed == {} && skipped == {} && started
      ensures loadedFile == file && loadedVersion == version
    {
      Init(size, shuffle, shuffled);
      loadedFile := file;
      loadedVersion := version;
    }

    /**
     * Rebuilds the part of the order from the cursor on: the ids there that
     * are not completed, sorted ascending, or in the order `shuffled` when
     * the toggle is on. The part before the cursor is kept as it is.
     */
    method ReshuffleRemaining(shuffle: bool, shuffled: seq<nat>)
      requires Valid()
      requires shuffle ==> multiset(shuffled) == multiset(Unfinished(order[idx..], completed))
      modifies this`order
      ensures Valid()
      ensures |order| >= idx && order[..idx] == old(order[..idx])
      ensures order[idx..] == if shuffle then shuffled else SortAsc(Unfinished(old(order[idx..]), completed))
      ensures multiset(order[idx..]) == multiset(Unfinished(old(order[idx..]), completed))
      ensures !shuffle ==> Ascending(order[idx..])
    {
      var prefix, suffix := order[..idx], order[idx..];
      var remaining := Unfinished(suffix, completed);
      if shuffle {
        remaining := shuffled;
      } else {
        remaining := SortAsc(remaining);
      }
      RebuiltRemainderCoherent(n, order, idx, completed, skipped, remaining);
      order := prefix + remaining;
    }

    /**
     * The reshuffle-on-toggle step of each rerun: when the toggle differs
     * from the one seen on the previous rerun, the remainder of the order is
     * rebuilt; otherwise nothing changes but the record of the toggle.
     */
    method SyncShuffle(shuffle: bool, shuffled: seq<nat>) returns (changed: bool)
      requires Valid()
      requires prevShuffle != Some(shuffle) && shuffle
               ==> multiset(shuffled) == multiset(Unfinished(order[idx..], completed))
      modifies this`order, this`prevShuffle
      ensures Valid()
      ensures changed == (old(prevShuffle) != Some(shuffle))
      ensures prevShuffle == Some(shuffle)
      ensures |order| >= idx && order[..idx] == old(order[..idx])
      ensures !changed ==> order == old(order)
      ensures changed ==> order[idx..] == if shuffle then shuffled
                                          else SortAsc(Unfinished(old(order[idx..]), completed))
    {
      changed := prevShuffle != Some(shuffle);
      if changed {
        prevShuffle := Some(shuffle);
        ReshuffleRemaining(shuffle, shuffled);
      }
    }

    /** The progress caption: cards completed out of the deck size. */
    method Progress() returns (done: nat, total: nat)
      requires Valid()
      ensures done == |completed| && total == n
      ensures done <= total
      ensures done == total <==> idx >= |order| && skipped == {}
    {
      done, total := |completed|, n;
      AllCompletedIffFinished(n, order, idx, completed, skipped);
      Tally(n, order, idx, completed, skipped);
    }

    /**
     * The find-next step of each rerun: moves the cursor past completed ids.
     * Under the session invariant no pending position holds a completed id,
     * so the cursor in fact never moves; the loop is a safeguard.
     */
    method AdvanceCursor()
      requires Valid()
      modifies this`idx
      ensures Valid()
      ensures old(idx) <= idx <= |order|
      ensures idx < |order| ==> order[idx] !in completed
      ensures forall j | old(idx) <= j < idx :: order[j] in completed
      ensures idx == old(idx)
    {
      if idx < |order| {
        assert order[idx] in Elems(order[idx..]);
      }
      idx := NextPending(order, idx, completed);
    }

    /**
     * The finish check after the find-next step: the pass is over when the
     * cursor is past the end; the second pass is offered when cards are
     * left skipped. A finished session with nothing skipped has every card
     * of the deck completed.
     */
    method Finished() returns (passOver: bool, offerSkipped: bool)
      requires Valid()
      ensures passOver == (idx >= |order|)
      ensures offerSkipped == (passOver && skipped != {})
      ensures passOver && !offerSkipped ==> completed == Below(n) && |completed| == n
    {
      passOver := idx >= |order|;
      offerSkipped := passOver && skipped != {};
      AllCompletedIffFinished(n, order, idx, completed, skipped);
    }

    /**
     * The second pass: the order becomes the skipped cards, listed in
     * `listing` (the iteration order of `list(skipped)`, shuffled when the
     * toggle is on), and the skipped set is emptied.
     */
    method BeginSkippedPass(listing: seq<nat>)
      requires Valid()
      requires idx >= |order| && skipped != {}
      requires multiset(listing) == multiset(skipped)
      modifies this`order, this`idx, this`skipped, this`showVerse
      ensures Valid()
      ensures order == listing && NoDup(order) && Elems(order) == old(skipped)
      ensures idx == 0 && skipped == {} && !showVerse
    {
      ListingOfSet(listing, skipped);
      assert Elems(order[idx..]) == {};
      order := listing;
      idx := 0;
      skipped := {};
      showVerse := false;
      assert order[idx..] == order;
    }

    /** The reveal button, offered while the current verse is hidden. */
    method Reveal()
      requires Valid() && idx < |order| && !showVerse
      modifies this`showVerse
      ensures Valid() && showVerse
    {
      showVerse := true;
    }

    /** The retry button: hides the verse again, nothing else changes. */
    method Retry()
      requires Valid() && idx < |order| && showVerse
      modifies this`showVerse
      ensures Valid() && !showVerse
    {
      showVerse := false;
    }

    /** The skip button: the current card is skipped and the cursor moves on. */
    method Skip()
      requires Valid() && idx < |order| && showVerse
      modifies this`skipped, this`idx, this`showVerse
      ensures Valid()
      ensures skipped == old(skipped) + {order[old(idx)]}
      ensures old(order[idx]) !in completed
      ensures idx == old(idx) + 1 && !showVerse
    {
      var id := order[idx];
      PendingStep(n, order, idx, completed, skipped);
      skipped := skipped + {id};
      idx := idx + 1;
      showVerse := false;
    }

    /** The memorised button: the current card is completed, its skip mark
        dropped, and the cursor moves on. */
    method Complete()
      requires Valid() && idx < |order| && showVerse
      modifies this`completed, this`skipped, this`idx, this`showVerse
      ensures Valid()
      ensures completed == old(completed) + {order[old(idx)]}
      ensures skipped == old(skipped) - {order[old(idx)]}
      ensures idx == old(idx) + 1 && !showVerse
    {
      var id := order[idx];
      PendingStep(n, order, idx, completed, skipped);
      completed := completed + {id};
      skipped := skipped - {id};
      idx := idx + 1;
      showVerse := false;
    }
  }

  /** Stepping past the current position takes exactly its id out of the
      pending part of the order. */
  lemma PendingStep(n: nat, order: seq<nat>, idx: nat, completed: set<nat>, skipped: set<nat>)
    requires Coherent(n, order, idx, completed, skipped) && idx < |order|
    ensures order[idx] !in completed && order[idx] !in skipped
    ensures Elems(order[idx..]) == {order[idx]} + Elems(order[idx + 1..])
    ensures order[idx] !in Elems(order[idx + 1..])
  {
    var rest := order[idx + 1..];
    assert order[idx..] == [order[idx]] + rest;
    forall k | 0 <= k < |rest| ensures rest[k] != order[idx] {
      assert rest[k] == order[idx + 1 + k];
    }
  }

  /**
   * Replacing the pending part of the order by any rearrangement of its ids
   * that are not completed keeps the session invariant and the consumed
   * prefix.
   */
  lemma RebuiltRemainderCoherent(n: nat, order: seq<nat>, idx: nat, completed: set<nat>, skipped: set<nat>,
                                 remaining: seq<nat>)
    requires Coherent(n, order, idx, completed, skipped)
    requires multiset(remaining) == multiset(Unfinished(order[idx..], completed))
    ensures Coherent(n, order[..idx] + remaining, idx, completed, skipped)
    ensures (order[..idx] + remaining)[..idx] == order[..idx]
    ensures (order[..idx] + remaining)[idx..] == remaining
  {
    var prefix, suffix := order[..idx], order[idx..];
    assert order == prefix + suffix;
    NoDupSplit(order, idx);
    SameMultisetNoDup(Unfinished(suffix, completed), remaining);
    NoDupAppend(prefix, suffix);
    NoDupAppend(prefix, remaining);
    var next := prefix + remaining;
    assert next[idx..] == remaining;
  }
}

/** Whole runs of an image cache (`src/iced_ui/image_cache.rs`): what every sequence
    of operations keeps, and which completions are accepted. */
module ImageCacheRuns {
  import opened Prelude
  import opened FileTrees
  import opened ImageCaches

  const Initially := CacheState(map[], 0, 0, {})

  ghost predicate Inv(s: CacheState, maxBytes: nat) {
    && Recorded(s.entries, s.clock) && TokensHold(s.entries, s.issued, s.cancelled)
    && WithinBudget(s.entries, maxBytes)
  }

  // ----- One step -----

  lemma DropKeepsInv(s: CacheState, gone: set<Path>, maxBytes: nat)
    requires Inv(s, maxBytes)
    ensures Inv(Dropped(s, gone), maxBytes)
  {
    hide Recorded, TokensHold, WithinBudget, Lost;
    EntriesDropped(s.entries, s.clock, s.issued, s.cancelled, gone);
    LostTokens(s.entries, gone);
    FewerFit(s.entries, s.entries - gone, maxBytes);
  }

  lemma EvictionKeepsInv(s: CacheState, s': CacheState, maxBytes: nat)
    requires Recorded(s.entries, s.clock) && TokensHold(s.entries, s.issued, s.cancelled)
    requires BackInBudget(s, s', maxBytes)
    ensures Inv(s', maxBytes)
  {
    hide Recorded, TokensHold, WithinBudget, Lost, LatestSurvive, LoadsGoLast, NoneToSpare;
    var gone := s.entries.Keys - s'.entries.Keys;
    assert s'.entries == s.entries - gone;
    EntriesDropped(s.entries, s.clock, s.issued, s.cancelled, gone);
    LostTokens(s.entries, gone);
  }

  lemma InsertKeepsInv(
    s: CacheState, path: Path, state: ImageState, source: Option<Source>, s': CacheState, maxBytes: nat)
    requires Inv(s, maxBytes) && IsStep(s, Insert(path, state, source), s', maxBytes)
    ensures Inv(s', maxBytes)
  {
    hide Recorded, TokensHold, WithinBudget, Dropped, BackInBudget;
    var removed := Dropped(s, {path});
    DropKeepsInv(s, {path}, maxBytes);
    if ImageBytes(state) <= maxBytes {
      var added := Inserted(removed, path, state, source);
      DroppedParts(s, {path});
      EntryAdded(removed.entries, removed.clock, removed.issued, removed.cancelled, path, added.entries[path]);
      EvictionKeepsInv(added, s', maxBytes);
    }
  }

  lemma FinishKeepsInv(s: CacheState, path: Path, token: nat, state: ImageState, s': CacheState, maxBytes: nat)
    requires Inv(s, maxBytes) && IsStep(s, Finish(path, token, state), s', maxBytes)
    ensures Inv(s', maxBytes)
  {
    hide Recorded, TokensHold, WithinBudget, BackInBudget;
    if Accepts(s, path, token) {
      var done := Finished(s, path, Kept(state, maxBytes));
      Completed(s.entries, s.clock, s.issued, s.cancelled, path, done.entries[path]);
      EvictionKeepsInv(done, s', maxBytes);
    }
  }

  /** Every operation keeps the budgets, the recency order and the tokens; it never
      takes a flag back. */
  lemma StepKeepsInv(s: CacheState, operation: Operation, s': CacheState, maxBytes: nat)
    requires Inv(s, maxBytes) && IsStep(s, operation, s', maxBytes)
    ensures Inv(s', maxBytes) && s.issued <= s'.issued && s.cancelled <= s'.cancelled
  {
    hide Recorded, TokensHold, WithinBudget, Dropped, BackInBudget;
    StepOnlyCancels(s, operation, s', maxBytes);
    BudgetParts(s.entries, maxBytes);
    BudgetParts(s'.entries, maxBytes);
    match operation
    case Look(path) =>
      if path in s.entries {
        Touched(s.entries, s.clock, s.issued, s.cancelled, path);
      }
    case Request(path) =>
      if path in s.entries {
        SameButRequested(s.entries, s.clock, s.issued, s.cancelled, path);
      }
    case Insert(path, state, source) =>
      InsertKeepsInv(s, path, state, source, s', maxBytes);
    case Finish(path, token, state) =>
      FinishKeepsInv(s, path, token, state, s', maxBytes);
    case Drop(gone) =>
      DropKeepsInv(s, gone, maxBytes);
  }

  /** A token issued earlier has not moved to another slot. */
  lemma HeldBefore(s: CacheState, operation: Operation, s': CacheState, maxBytes: nat, path: Path)
    requires IsStep(s, operation, s', maxBytes)
    requires path in s'.entries && s'.entries[path].token < s.issued
    ensures path in s.entries && s.entries[path].token == s'.entries[path].token
    ensures s'.entries[path].state.Loading? ==> s.entries[path].state.Loading?
  {
    hide Lost, WithinBudget, LatestSurvive, LoadsGoLast, NoneToSpare;
  }

  // ----- Whole runs -----

  ghost predicate IsRun(states: seq<CacheState>, operations: seq<Operation>, maxBytes: nat) {
    && |states| == |operations| + 1 && states[0] == Initially
    && forall k :: 0 <= k < |operations| ==> IsStep(states[k], operations[k], states[k + 1], maxBytes)
  }

  lemma InitiallyInv(maxBytes: nat)
    ensures Inv(Initially, maxBytes)
  {
  }

  lemma {:induction false} RunsKeepInv(states: seq<CacheState>, operations: seq<Operation>, maxBytes: nat, k: nat)
    requires IsRun(states, operations, maxBytes) && k < |states|
    ensures Inv(states[k], maxBytes)
  {
    hide IsStep, Inv;
    if k == 0 {
      InitiallyInv(maxBytes);
    } else {
      RunsKeepInv(states, operations, maxBytes, k - 1);
      StepKeepsInv(states[k - 1], operations[k - 1], states[k], maxBytes);
    }
  }

  /** The request of this token occupies the slot and has no answer yet. */
  predicate Waits(s: CacheState, path: Path, token: nat) {
    path in s.entries && s.entries[path].token == token && s.entries[path].state.Loading?
  }

  lemma {:induction false} HeldAllAlong(
    states: seq<CacheState>, operations: seq<Operation>, maxBytes: nat, j: nat, k: nat, path: Path)
    requires IsRun(states, operations, maxBytes) && j <= k < |states|
    requires path in states[k].entries && states[k].entries[path].token < states[j].issued
    ensures path in states[j].entries && states[j].entries[path].token == states[k].entries[path].token
    ensures states[k].entries[path].state.Loading? ==> states[j].entries[path].state.Loading?
    ensures states[j].issued <= states[k].issued && states[j].cancelled <= states[k].cancelled
  {
    hide IsStep;
    if j < k {
      FlagsStay(states, operations, maxBytes, j, k - 1);
      HeldBefore(states[k - 1], operations[k - 1], states[k], maxBytes, path);
      StepOnlyCancels(states[k - 1], operations[k - 1], states[k], maxBytes);
      HeldAllAlong(states, operations, maxBytes, j, k - 1, path);
    }
  }

  lemma {:induction false} FlagsStay(
    states: seq<CacheState>, operations: seq<Operation>, maxBytes: nat, j: nat, k: nat)
    requires IsRun(states, operations, maxBytes) && j <= k < |states|
    ensures states[j].issued <= states[k].issued && states[j].cancelled <= states[k].cancelled
  {
    hide IsStep;
    if j < k {
      FlagsStay(states, operations, maxBytes, j, k - 1);
      StepOnlyCancels(states[k - 1], operations[k - 1], states[k], maxBytes);
    }
  }

  /** A completion is accepted exactly if its request has occupied the slot without
      an answer ever since: not replaced, invalidated, trimmed or evicted. */
  lemma AcceptedIffNeverDisturbed(
    states: seq<CacheState>, operations: seq<Operation>, maxBytes: nat, j: nat, k: nat, path: Path, token: nat)
    requires IsRun(states, operations, maxBytes) && j <= k < |states| && token < states[j].issued
    ensures Accepts(states[k], path, token) <==> forall m :: j <= m <= k ==> Waits(states[m], path, token)
  {
    hide IsStep, IsRun;
    if Accepts(states[k], path, token) {
      forall m | j <= m <= k ensures Waits(states[m], path, token) {
        FlagsStay(states, operations, maxBytes, j, m);
        HeldAllAlong(states, operations, maxBytes, m, k, path);
      }
    }
    if Waits(states[k], path, token) {
      RunsKeepInv(states, operations, maxBytes, k);
      TokenOfEntry(states[k].entries, states[k].issued, states[k].cancelled, path);
    }
  }

  /** Once its entry has left the slot, by whatever operation, a token is cancelled
      for good, and a late completion with it changes nothing. */
  lemma LateCompletionChangesNothing(
    states: seq<CacheState>, operations: seq<Operation>, maxBytes: nat, i: nat, j: nat, k: nat, path: Path,
    token: nat)
    requires IsRun(states, operations, maxBytes) && i <= j <= k < |states|
    requires path in states[i].entries && states[i].entries[path].token == token
    requires path !in states[j].entries || states[j].entries[path].token != token
    ensures token in states[k].cancelled
    ensures forall p :: !Accepts(states[k], p, token)
    ensures k < |operations| && operations[k].Finish? && operations[k].token == token ==> states[k + 1] == states[k]
  {
    hide IsStep, Accepts;
    RunsKeepInv(states, operations, maxBytes, i);
    RunsKeepInv(states, operations, maxBytes, j);
    FlagsStay(states, operations, maxBytes, i, j);
    if p :| p in states[j].entries && states[j].entries[p].token == token {
      HeldAllAlong(states, operations, maxBytes, i, j, p);
    }
    assert !Occupies(states[j].entries, token);
    FlagsStay(states, operations, maxBytes, j, k);
    CancelledIsRefused(states[k], token);
    if k < |operations| && operations[k].Finish? && operations[k].token == token {
      RefusedChangesNothing(states[k], operations[k], states[k + 1], maxBytes);
    }
  }

  lemma CancelledIsRefused(s: CacheState, token: nat)
    requires token in s.cancelled
    ensures forall p :: !Accepts(s, p, token)
  {
  }

  lemma RefusedChangesNothing(s: CacheState, operation: Operation, s': CacheState, maxBytes: nat)
    requires IsStep(s, operation, s', maxBytes) && operation.Finish?
    requires !Accepts(s, operation.path, operation.token)
    ensures s' == s
  {
  }

  /** A request is answered once: the second completion with its token is refused. */
  lemma AnsweredOnce(
    states: seq<CacheState>, operations: seq<Operation>, maxBytes: nat, j: nat, k: nat)
    requires IsRun(states, operations, maxBytes) && j < k < |operations|
    requires operations[j].Finish? && operations[k].Finish? && operations[j].token == operations[k].token
    requires !operations[j].state.Loading? && Accepts(states[j], operations[j].path, operations[j].token)
    ensures states[k + 1] == states[k]
  {
    hide IsStep, Inv;
    var path, token := operations[k].path, operations[k].token;
    RunsKeepInv(states, operations, maxBytes, j);
    TokensBelow(states[j], maxBytes);
    FinishedIsAnswered(states[j], operations[j], states[j + 1], maxBytes, path);
    FlagsStay(states, operations, maxBytes, j, j + 1);
    AcceptedIffNeverDisturbed(states, operations, maxBytes, j + 1, k, path, token);
    assert !Accepts(states[k], path, token) by { assert !Waits(states[j + 1], path, token); }
    RefusedChangesNothing(states[k], operations[k], states[k + 1], maxBytes);
  }

  lemma TokensBelow(s: CacheState, maxBytes: nat)
    requires Inv(s, maxBytes)
    ensures forall p :: p in s.entries ==> s.entries[p].token < s.issued
    ensures forall p, q :: p in s.entries && q in s.entries && s.entries[p].token == s.entries[q].token ==> p == q
  {
  }

  lemma FinishedIsAnswered(s: CacheState, operation: Operation, s': CacheState, maxBytes: nat, path: Path)
    requires IsStep(s, operation, s', maxBytes)
    requires operation.Finish? && !operation.state.Loading? && Accepts(s, operation.path, operation.token)
    requires forall p, q :: p in s.entries && q in s.entries && s.entries[p].token == s.entries[q].token ==> p == q
    ensures !Waits(s', path, operation.token)
  {
    hide Lost, WithinBudget, LatestSurvive, LoadsGoLast, NoneToSpare;
  }

  // ----- Delivered images -----

  /** The slot shows this image, as it was delivered for this request. */
  predicate Shows(s: CacheState, path: Path, token: nat, image: ImageState) {
    && path in s.entries && s.entries[path].token == token && s.entries[path].state == image
    && image.Ready? && s.entries[path].bytes == image.pixels
  }

  predicate Holds(s: CacheState, path: Path, token: nat) {
    path in s.entries && s.entries[path].token == token
  }

  /** The operation takes the entry out: drops it, replaces it or evicts it. */
  predicate TakesOut(s: CacheState, operation: Operation, s': CacheState, path: Path) {
    match operation
    case Drop(gone) => path in gone
    case Insert(added, _, _) => added == path || path !in s'.entries
    case Finish(_, _, _) => path !in s'.entries
    case _ => false
  }

  /** An accepted image that fits is what the slot shows. */
  lemma DeliveredIsShown(s: CacheState, path: Path, token: nat, image: ImageState, s': CacheState, maxBytes: nat)
    requires Inv(s, maxBytes) && IsStep(s, Finish(path, token, image), s', maxBytes)
    requires Accepts(s, path, token) && image.Ready? && image.pixels <= maxBytes
    ensures Shows(s', path, token, image)
  {
    hide Recorded, TokensHold, Lost, Evicted, WithinBudget, PendingLoads;
    var done := Finished(s, path, Kept(image, maxBytes));
    RecordedParts(s.entries, s.clock);
    FinishAccepted(s, path, token, image, s', maxBytes);
    CompletedSurvives(s.entries, path, done.entries[path], s'.entries, maxBytes);
  }

  /** One operation leaves the image as it is unless it takes the entry out. */
  lemma ShownUnlessTaken(
    s: CacheState, operation: Operation, s': CacheState, maxBytes: nat, path: Path, token: nat, image: ImageState)
    requires IsStep(s, operation, s', maxBytes) && Shows(s, path, token, image) && token < s.issued
    ensures Shows(s', path, token, image) <==> !TakesOut(s, operation, s', path)
    ensures Holds(s', path, token) ==> Shows(s', path, token, image)
  {
    hide Lost, WithinBudget, LatestSurvive, LoadsGoLast, NoneToSpare;
  }

  lemma AcceptedIsHeld(s: CacheState, path: Path, token: nat)
    requires Accepts(s, path, token) && forall p :: p in s.entries ==> s.entries[p].token < s.issued
    ensures token < s.issued
  {
  }

  lemma GoneStaysGone(
    s: CacheState, operation: Operation, s': CacheState, maxBytes: nat, path: Path, token: nat, image: ImageState)
    requires IsStep(s, operation, s', maxBytes) && !Holds(s, path, token) && token < s.issued
    ensures !Holds(s', path, token) && !Shows(s', path, token, image) && !Shows(s, path, token, image)
  {
    hide IsStep;
    if Holds(s', path, token) {
      HeldBefore(s, operation, s', maxBytes, path);
    }
  }

  /** A delivered image is shown exactly until its entry is dropped, replaced or
      evicted, and does not come back by itself. */
  lemma {:induction false} ShownUntilTakenOut(
    states: seq<CacheState>, operations: seq<Operation>, maxBytes: nat, j: nat, k: nat, path: Path, token: nat,
    image: ImageState)
    requires IsRun(states, operations, maxBytes) && j < k < |states|
    requires operations[j] == Finish(path, token, image) && Accepts(states[j], path, token)
    requires image.Ready? && image.pixels <= maxBytes
    ensures Shows(states[k], path, token, image) <==>
              forall i :: j < i < k ==> !TakesOut(states[i], operations[i], states[i + 1], path)
    ensures Holds(states[k], path, token) ==> Shows(states[k], path, token, image)
  {
    hide IsStep, Inv, Shows, Holds, TakesOut;
    if k == j + 1 {
      RunsKeepInv(states, operations, maxBytes, j);
      DeliveredIsShown(states[j], path, token, image, states[k], maxBytes);
    } else {
      ShownUntilTakenOut(states, operations, maxBytes, j, k - 1, path, token, image);
      RunsKeepInv(states, operations, maxBytes, j);
      TokensBelow(states[j], maxBytes);
      AcceptedIsHeld(states[j], path, token);
      FlagsStay(states, operations, maxBytes, j, k - 1);
      if Holds(states[k - 1], path, token) {
        ShownUnlessTaken(states[k - 1], operations[k - 1], states[k], maxBytes, path, token, image);
      } else {
        GoneStaysGone(states[k - 1], operations[k - 1], states[k], maxBytes, path, token, image);
      }
    }
  }

  // ----- Loads under pressure -----

  /** A pending load is only lost when it is dropped or replaced, or when a new entry
      comes into a cache of 2048 entries and nothing but loads remains: never to
      make room for bytes. */
  lemma LoadsSurviveBytes(s: CacheState, operation: Operation, s': CacheState, maxBytes: nat, path: Path)
    requires Inv(s, maxBytes) && IsStep(s, operation, s', maxBytes)
    requires path in s.entries && s.entries[path].state.Loading? && path !in s'.entries
    ensures match operation
            case Drop(gone) => path in gone
            case Insert(added, _, _) =>
              || added == path
              || (added !in s.entries && |s.entries| == MAX_CACHE_ENTRIES
                  && forall q :: q in s'.entries ==> s'.entries[q].state.Loading?)
            case _ => false
  {
    hide Recorded, TokensHold, Lost, Evicted, WithinBudget, PendingLoads;
    BudgetParts(s.entries, maxBytes);
    match operation
    case Insert(added, state, source) =>
      if added != path && ImageBytes(state) <= maxBytes {
        InsertSparesLoads(s, added, state, source, s', maxBytes, path);
      }
    case Finish(answered, token, state) =>
      if Accepts(s, answered, token) {
        var done := Finished(s, answered, Kept(state, maxBytes));
        RecordedParts(s.entries, s.clock);
        FinishAccepted(s, answered, token, state, s', maxBytes);
        CompletedSurvives(s.entries, answered, done.entries[answered], s'.entries, maxBytes);
      }
    case _ =>
  }

  lemma InsertSparesLoads(
    s: CacheState, added: Path, state: ImageState, source: Option<Source>, s': CacheState, maxBytes: nat, path: Path)
    requires |s.entries| <= MAX_CACHE_ENTRIES && path != added && ImageBytes(state) <= maxBytes
    requires IsStep(s, Insert(added, state, source), s', maxBytes)
    requires path in s.entries && s.entries[path].state.Loading? && path !in s'.entries
    ensures added !in s.entries && |s.entries| == MAX_CACHE_ENTRIES
    ensures forall q :: q in s'.entries ==> s'.entries[q].state.Loading?
  {
    hide Lost, WithinBudget, LatestSurvive, NoneToSpare;
    var full := Inserted(Dropped(s, {added}), added, state, source).entries;
    assert full.Keys == s.entries.Keys + {added} && |full.Keys| == |full|;
    assert added in s.entries ==> full.Keys == s.entries.Keys;
    assert full[path].state.Loading?;
    assert SomeLoadGone(full, s'.entries);
  }
}

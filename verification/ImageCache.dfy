/** The image caches (`src/iced_ui/image_cache.rs`): recency, a byte budget, an
    entry budget, and a cancellation token for every request. */
module ImageCaches {
  import opened Prelude
  import opened FileTrees
  import opened VirtualPaths

  const MAX_CACHE_ENTRIES: nat := 2048

  /** `pixels` is what the decoded image occupies. */
  datatype ImageState = Loading | Ready(pixels: nat) | Missing

  /** What the listing knows of a file; equal values mean the same version. */
  datatype Source = Source(path: Path, size: Option<nat>, modified: Option<nat>, kind: nat)

  datatype CachedImage = CachedImage(
    state: ImageState, source: Option<Source>, bytes: nat, used: nat, token: nat, requested: bool)

  type Entries = map<Path, CachedImage>

  function ImageBytes(state: ImageState): nat {
    if state.Ready? then state.pixels else 0
  }

  function SaturatingSub(a: nat, b: nat): nat {
    if b <= a then a - b else 0
  }

  // ----- Sums -----

  ghost function Sum(entries: Entries): nat
    decreases |entries|
  {
    if entries == map[] then 0
    else
      var p :| p in entries;
      entries[p].bytes + Sum(entries - {p})
  }

  lemma {:induction false} SumWithout(entries: Entries, p: Path)
    requires p in entries
    ensures Sum(entries) == entries[p].bytes + Sum(entries - {p})
    decreases |entries|
  {
    var first :| first in entries && Sum(entries) == entries[first].bytes + Sum(entries - {first});
    if first != p {
      SumWithout(entries - {first}, p);
      SumWithout(entries - {p}, first);
      assert entries - {first} - {p} == entries - {p} - {first};
    }
  }

  lemma SumWith(entries: Entries, p: Path, entry: CachedImage)
    ensures Sum(entries[p := entry]) == entry.bytes + Sum(entries - {p})
  {
    SumWithout(entries[p := entry], p);
    assert entries[p := entry] - {p} == entries - {p};
  }

  lemma AbsentChangesNothing(entries: Entries, p: Path)
    requires p !in entries
    ensures entries - {p} == entries
  {
  }

  /** Dropping entries that occupy nothing leaves the sum alone. */
  lemma {:induction false} SumWithoutEmpty(entries: Entries, gone: set<Path>)
    requires forall p :: p in gone && p in entries ==> entries[p].bytes == 0
    ensures Sum(entries - gone) == Sum(entries)
    decreases |gone|
  {
    if gone == {} {
      assert entries - gone == entries;
    } else {
      var p :| p in gone;
      SumWithoutEmpty(entries - {p}, gone - {p});
      assert entries - {p} - (gone - {p}) == entries - gone;
      if p in entries {
        SumWithout(entries, p);
      } else {
        AbsentChangesNothing(entries, p);
      }
    }
  }

  lemma EmptySum(entries: Entries)
    requires forall p :: p in entries ==> entries[p].bytes == 0
    ensures Sum(entries) == 0
  {
    SumWithoutEmpty(entries, entries.Keys);
    assert entries - entries.Keys == map[];
  }

  lemma {:induction false} PartOfSum(entries: Entries, p: Path)
    requires p in entries
    ensures entries[p].bytes <= Sum(entries)
  {
    SumWithout(entries, p);
  }

  // ----- Consistency -----

  ghost predicate Recorded(entries: Entries, clock: nat) {
    && (forall p :: p in entries ==> entries[p].bytes == ImageBytes(entries[p].state) && entries[p].used <= clock)
    && (forall p, q :: p in entries && q in entries && entries[p].used == entries[q].used ==> p == q)
  }

  /** A token is uncancelled exactly while its entry occupies the cache. */
  ghost predicate TokensHold(entries: Entries, issued: nat, cancelled: set<nat>) {
    && (forall p :: p in entries ==> entries[p].token < issued)
    && (forall t :: t in cancelled ==> t < issued)
    && (forall p, q :: p in entries && q in entries && entries[p].token == entries[q].token ==> p == q)
    && (forall t :: 0 <= t < issued ==> (t !in cancelled <==> Occupies(entries, t)))
  }

  ghost predicate Occupies(entries: Entries, token: nat) {
    exists p :: p in entries && entries[p].token == token
  }

  ghost predicate WithinBudget(entries: Entries, maxBytes: nat) {
    Sum(entries) <= maxBytes && |entries| <= MAX_CACHE_ENTRIES
  }

  // ----- Eviction -----

  ghost predicate KeptEntries(before: Entries, after: Entries) {
    forall p :: p in after ==> p in before && after[p] == before[p]
  }

  /** Among the finished images, and among the pending loads, the survivors are the
      latest used. */
  ghost predicate LatestSurvive(before: Entries, after: Entries) {
    forall p, q :: p in before && q in before && p in after && before[p].state.Loading? == before[q].state.Loading? ==>
      (before[p].used <= before[q].used ==> q in after)
  }

  ghost predicate SomeLoadGone(before: Entries, after: Entries) {
    exists p :: p in before && p !in after && before[p].state.Loading?
  }

  /** A pending load only goes when there are too many entries and nothing else is left. */
  ghost predicate LoadsGoLast(before: Entries, after: Entries) {
    SomeLoadGone(before, after) ==>
      |before| > MAX_CACHE_ENTRIES && forall q :: q in after ==> q in before && before[q].state.Loading?
  }

  /** Nothing went without need: with the last victim back the budget is exceeded. */
  ghost predicate NoneToSpare(before: Entries, after: Entries, maxBytes: nat) {
    after != before ==> exists p :: p in before && p !in after && !WithinBudget(after[p := before[p]], maxBytes)
  }

  ghost predicate Evicted(before: Entries, after: Entries, maxBytes: nat) {
    && KeptEntries(before, after) && LatestSurvive(before, after) && LoadsGoLast(before, after)
    && NoneToSpare(before, after, maxBytes)
  }

  /** The entry to go next: the least recently used image, else the oldest load. */
  ghost predicate IsVictim(entries: Entries, victim: Path) {
    && victim in entries
    && (forall p :: p in entries && entries[p].state.Loading? == entries[victim].state.Loading? ==>
          entries[victim].used <= entries[p].used)
    && (entries[victim].state.Loading? ==> forall p :: p in entries ==> entries[p].state.Loading?)
  }

  lemma VictimEvicted(before: Entries, entries: Entries, victim: Path, maxBytes: nat)
    requires Evicted(before, entries, maxBytes) && IsVictim(entries, victim) && !WithinBudget(entries, maxBytes)
    requires forall p :: p in before ==> before[p].bytes == ImageBytes(before[p].state)
    requires forall p, q :: p in before && q in before && before[p].used == before[q].used ==> p == q
    ensures Evicted(before, entries - {victim}, maxBytes)
  {
    hide Sum, LatestSurvive, LoadsGoLast, WithinBudget, IsVictim;
    VictimWasOldest(before, entries, victim);
    VictimWasLastResort(before, entries, victim, maxBytes);
    assert entries[victim] == before[victim] by { VictimIsThere(entries, victim); }
    assert (entries - {victim})[victim := before[victim]] == entries;
  }

  lemma VictimIsThere(entries: Entries, victim: Path)
    requires IsVictim(entries, victim)
    ensures victim in entries
  {
  }

  lemma VictimWasOldest(before: Entries, entries: Entries, victim: Path)
    requires KeptEntries(before, entries) && LatestSurvive(before, entries) && IsVictim(entries, victim)
    requires forall p, q :: p in before && q in before && before[p].used == before[q].used ==> p == q
    ensures LatestSurvive(before, entries - {victim})
  {
  }

  lemma VictimWasLastResort(before: Entries, entries: Entries, victim: Path, maxBytes: nat)
    requires KeptEntries(before, entries) && LoadsGoLast(before, entries) && IsVictim(entries, victim)
    requires !WithinBudget(entries, maxBytes)
    requires forall p :: p in before ==> before[p].bytes == ImageBytes(before[p].state)
    ensures LoadsGoLast(before, entries - {victim})
  {
    hide Sum;
    if entries[victim].state.Loading? {
      FewerEntries(before, entries);
      EmptySum(entries);
    }
  }

  lemma FewerEntries(before: Entries, after: Entries)
    requires KeptEntries(before, after)
    ensures |after| <= |before|
  {
    assert after.Keys <= before.Keys;
    SubsetSize(after.Keys, before.Keys);
  }

  // ----- The operations as steps -----

  /** What the operations change; the byte count is the sum over the entries. */
  datatype CacheState = CacheState(entries: Entries, clock: nat, issued: nat, cancelled: set<nat>)

  datatype Operation =
    | Look(path: Path)
    | Request(path: Path)
    | Insert(path: Path, state: ImageState, source: Option<Source>)
    | Finish(path: Path, token: nat, state: ImageState)
    | Drop(gone: set<Path>)

  /** The tokens of the entries that are in `before` and no longer in `after`. */
  ghost function Lost(before: Entries, after: Entries): (tokens: set<nat>)
    ensures forall t :: t in tokens <==> exists p :: p in before && p !in after && before[p].token == t
  {
    set p | p in before && p !in after :: before[p].token
  }

  function Looked(s: CacheState, path: Path): CacheState {
    if path !in s.entries then s
    else s.(entries := s.entries[path := s.entries[path].(used := s.clock + 1)], clock := s.clock + 1)
  }

  function Requested(s: CacheState, path: Path): CacheState {
    if path !in s.entries then s
    else s.(entries := s.entries[path := s.entries[path].(requested := true)])
  }

  /** Whatever goes has its flag set. */
  ghost function Dropped(s: CacheState, gone: set<Path>): (s': CacheState)
    ensures s'.clock == s.clock && s'.issued == s.issued && s.cancelled <= s'.cancelled
  {
    s.(entries := s.entries - gone, cancelled := s.cancelled + Lost(s.entries, s.entries - gone))
  }

  /** Exactly the flags of what had to go are set. */
  ghost predicate Shrunk(s: CacheState, s': CacheState, maxBytes: nat) {
    && Evicted(s.entries, s'.entries, maxBytes)
    && s' == s.(entries := s'.entries, cancelled := s.cancelled + Lost(s.entries, s'.entries))
  }

  ghost predicate BackInBudget(s: CacheState, s': CacheState, maxBytes: nat) {
    Shrunk(s, s', maxBytes) && WithinBudget(s'.entries, maxBytes)
  }

  function Inserted(s: CacheState, path: Path, state: ImageState, source: Option<Source>): CacheState {
    s.(entries := s.entries[path := CachedImage(state, source, ImageBytes(state), s.clock + 1, s.issued, false)],
       clock := s.clock + 1, issued := s.issued + 1)
  }

  predicate Accepts(s: CacheState, path: Path, token: nat) {
    path in s.entries && token !in s.cancelled && s.entries[path].token == token && s.entries[path].state.Loading?
  }

  /** A finished image that cannot fit is remembered as missing. */
  function Kept(state: ImageState, maxBytes: nat): ImageState {
    if ImageBytes(state) > maxBytes then Missing else state
  }

  function Finished(s: CacheState, path: Path, state: ImageState): CacheState
    requires path in s.entries
  {
    s.(entries := s.entries[path := s.entries[path].(state := state, bytes := ImageBytes(state), used := s.clock + 1)],
       clock := s.clock + 1)
  }

  ghost predicate IsStep(s: CacheState, operation: Operation, s': CacheState, maxBytes: nat) {
    match operation
    case Look(path) => s' == Looked(s, path)
    case Request(path) => s' == Requested(s, path)
    case Insert(path, state, source) =>
      if ImageBytes(state) > maxBytes then s' == Dropped(s, {path})
      else BackInBudget(Inserted(Dropped(s, {path}), path, state, source), s', maxBytes)
    case Finish(path, token, state) =>
      if !Accepts(s, path, token) then s' == s
      else BackInBudget(Finished(s, path, Kept(state, maxBytes)), s', maxBytes)
    case Drop(gone) => s' == Dropped(s, gone)
  }

  lemma NothingLost(entries: Entries)
    ensures Lost(entries, entries) == {}
  {
  }

  lemma LostOneMore(before: Entries, entries: Entries, victim: Path)
    requires KeptEntries(before, entries) && victim in entries
    ensures Lost(before, entries - {victim}) == Lost(before, entries) + {before[victim].token}
    ensures entries[victim] == before[victim] && KeptEntries(before, entries - {victim})
  {
    forall t ensures t in Lost(before, entries - {victim}) <==> t in Lost(before, entries) + {before[victim].token} {
      if t in Lost(before, entries - {victim}) {
        var p :| p in before && p !in entries - {victim} && before[p].token == t;
      }
      if t in Lost(before, entries) {
        var p :| p in before && p !in entries && before[p].token == t;
        assert p !in entries - {victim};
      }
      if t == before[victim].token {
        assert victim in before && victim !in entries - {victim};
      }
    }
  }

  lemma NoneDropped(s: CacheState, path: Path)
    requires path !in s.entries
    ensures Dropped(s, {path}) == s
  {
    AbsentChangesNothing(s.entries, path);
    NothingLost(s.entries);
  }

  lemma OneDropped(s: CacheState, path: Path)
    requires path in s.entries
    ensures Dropped(s, {path}) == s.(entries := s.entries - {path}, cancelled := s.cancelled + {s.entries[path].token})
  {
    NothingLost(s.entries);
    LostOneMore(s.entries, s.entries, path);
  }

  lemma DroppedOneMore(s: CacheState, gone: set<Path>, path: Path)
    ensures Dropped(Dropped(s, gone), {path}) == Dropped(s, gone + {path})
  {
    hide Lost;
    var earlier := Dropped(s, gone);
    assert s.entries - gone - {path} == s.entries - (gone + {path});
    if path in earlier.entries {
      OneDropped(earlier, path);
      LostOneMore(s.entries, earlier.entries, path);
    } else {
      NoneDropped(earlier, path);
      assert s.entries - (gone + {path}) == s.entries - gone;
    }
  }

  lemma DroppedNone(s: CacheState)
    ensures Dropped(s, {}) == s
  {
    NothingLost(s.entries);
    assert s.entries - {} == s.entries;
  }

  // ----- The cache -----

  class ImageCache {
    const maxBytes: nat
    var entries: Entries
    var bytes: nat
    var clock: nat
    var issued: nat
    /** Tokens whose flag has been set. */
    var cancelled: set<nat>

    /** Everything but the budgets. */
    ghost predicate Consistent()
      reads this
    {
      bytes == Sum(entries) && Recorded(entries, clock) && TokensHold(entries, issued, cancelled)
    }

    ghost predicate Valid()
      reads this
    {
      Consistent() && WithinBudget(entries, maxBytes)
    }

    ghost function View(): CacheState
      reads this
    {
      CacheState(entries, clock, issued, cancelled)
    }

    constructor (maxBytes: nat)
      ensures Valid() && this.maxBytes == maxBytes && View() == CacheState(map[], 0, 0, {})
    {
      this.maxBytes := maxBytes;
      entries, bytes, clock, issued, cancelled := map[], 0, 0, 0, {};
    }

    /** Takes an entry out; dropping it sets its flag. */
    method Remove(path: Path) returns (state: Option<ImageState>)
      requires Consistent()
      modifies this
      ensures Consistent() && View() == Dropped(old(View()), {path})
      ensures issued == old(issued) && old(cancelled) <= cancelled
      ensures state.Some? <==> path in old(entries)
      ensures state.Some? ==> state.value == old(entries)[path].state
    {
      hide Recorded, TokensHold, Sum, Dropped;
      if path !in entries {
        NoneDropped(View(), path);
        return None;
      }
      OneDropped(View(), path);
      SumWithout(entries, path);
      TokenDropped(entries, clock, issued, cancelled, path);
      var entry := entries[path];
      state := Some(entry.state);
      entries := entries - {path};
      bytes := SaturatingSub(bytes, entry.bytes);
      cancelled := cancelled + {entry.token};
    }

    /** The oldest entry among some of them. */
    method Oldest(candidates: set<Path>) returns (oldest: Option<Path>)
      requires candidates <= entries.Keys
      ensures oldest.None? <==> candidates == {}
      ensures oldest.Some? ==>
                && oldest.value in candidates
                && forall p :: p in candidates ==> entries[oldest.value].used <= entries[p].used
    {
      oldest := None;
      var rest := candidates;
      while rest != {}
        invariant rest <= candidates && (oldest.None? <==> rest == candidates)
        invariant oldest.Some? ==>
                    && oldest.value in candidates
                    && forall p :: p in candidates - rest ==> entries[oldest.value].used <= entries[p].used
      {
        var p :| p in rest;
        if oldest.None? || entries[p].used < entries[oldest.value].used {
          oldest := Some(p);
        }
        rest := rest - {p};
      }
    }

    /** The image used least recently or, without any image, the oldest load. */
    method NextVictim() returns (victim: Option<Path>)
      ensures victim.None? <==> entries.Keys == {}
      ensures victim.Some? ==> IsVictim(entries, victim.value)
    {
      hide IsVictim;
      var images := set p | p in entries && !entries[p].state.Loading?;
      victim := Oldest(images);
      if victim.None? {
        victim := Oldest(entries.Keys);
      }
      if victim.Some? {
        OldestIsVictim(entries, victim.value);
      }
    }

    method EnforceBudget()
      requires Consistent()
      modifies this
      ensures Valid() && BackInBudget(old(View()), View(), maxBytes)
    {
      hide Consistent, Recorded, TokensHold, Sum, IsVictim, WithinBudget, Dropped, Shrunk, BackInBudget;
      ghost var s := View();
      ConsistentParts();
      NothingShrunk(s, maxBytes);
      BudgetParts(entries, maxBytes);
      RecordedParts(entries, clock);
      while bytes > maxBytes || |entries| > MAX_CACHE_ENTRIES
        invariant Consistent() && Shrunk(s, View(), maxBytes)
        decreases |entries|
      {
        ConsistentParts();
        BudgetParts(entries, maxBytes);
        var oldest := NextVictim();
        if oldest.None? {
          break;
        }
        ShrunkOneMore(s, View(), oldest.value, maxBytes);
        var _ := Remove(oldest.value);
      }
      ConsistentParts();
      BudgetParts(entries, maxBytes);
      EmptyFits(entries, maxBytes);
      BackAfterEviction(s, View(), maxBytes);
    }

    /** Looking an image up makes it the latest used. */
    method Get(path: Path) returns (state: Option<ImageState>)
      requires Valid()
      modifies this
      ensures Valid() && View() == Looked(old(View()), path)
      ensures state == if path in old(entries) then Some(old(entries)[path].state) else None
      ensures entries.Keys == old(entries).Keys && cancelled == old(cancelled)
      ensures forall p :: p in entries ==>
                entries[p] == if p == path then old(entries)[p].(used := old(clock) + 1) else old(entries)[p]
    {
      if path !in entries {
        return None;
      }
      Touch(path);
      state := Some(entries[path].state);
    }

    method Touch(path: Path)
      requires Valid() && path in entries
      modifies this`entries, this`clock
      ensures Valid() && View() == Looked(old(View()), path)
    {
      hide Recorded, TokensHold;
      Touched(entries, clock, issued, cancelled, path);
      clock := clock + 1;
      entries := entries[path := entries[path].(used := clock)];
    }

    /** Replaces whatever the slot holds. An image too large for the cache is not
        kept; any other one stays, unless as many loads as the cache has room for
        are pending. */
    method InsertWithSource(path: Path, state: ImageState, source: Option<Source>)
      requires Valid()
      modifies this
      ensures Valid()
      ensures IsStep(old(View()), Insert(path, state, source), View(), maxBytes)
      ensures old(issued) <= issued && old(cancelled) <= cancelled
      ensures path in entries <==>
                && ImageBytes(state) <= maxBytes
                && (state.Loading? || |PendingLoads(old(entries) - {path})| < MAX_CACHE_ENTRIES)
      ensures path in entries ==>
                entries[path] == CachedImage(state, source, if state.Ready? then state.pixels else 0,
                                             old(clock) + 1, old(issued), false)
    {
      hide Consistent, Recorded, TokensHold, Sum, Evicted, IsVictim, WithinBudget, Lost, Dropped, BackInBudget,
        IsStep, PendingLoads;
      ghost var before, s := entries, View();
      ConsistentParts();
      BudgetParts(before, maxBytes);
      RecordedParts(before, clock);
      var _ := Remove(path);
      ghost var removed := View();
      DroppedParts(s, {path});
      var size := ImageBytes(state);
      if size > maxBytes {
        SmallerFits(before, path, maxBytes);
        ConsistentParts();
        InsertTooLarge(s, path, state, source, maxBytes);
        StepOnlyCancels(s, Insert(path, state, source), View(), maxBytes);
        return;
      }
      var entry := CachedImage(state, source, size, clock + 1, issued, false);
      AddEntry(path, entry);
      assert entries == before[path := entry] by { ReplacedEntry(before, path, entry); }
      InsertFits(s, removed, path, state, source, View(), maxBytes);
      ghost var added := View();
      EnforceBudget();
      BackInBudgetParts(added, View(), maxBytes);
      StepOnlyCancels(s, Insert(path, state, source), View(), maxBytes);
      ConsistentParts();
      NewestSurvives(before, path, entry, entries, maxBytes);
    }

    lemma ConsistentParts()
      ensures Valid() <==> Consistent() && WithinBudget(entries, maxBytes)
      ensures Consistent() <==>
                bytes == Sum(entries) && Recorded(entries, clock) && TokensHold(entries, issued, cancelled)
    {
    }

    method AddEntry(path: Path, entry: CachedImage)
      requires Consistent() && path !in entries
      requires entry.bytes == ImageBytes(entry.state) && entry.used == clock + 1 && entry.token == issued
      modifies this
      ensures Consistent()
      ensures View() == CacheState(old(entries)[path := entry], old(clock) + 1, old(issued) + 1, old(cancelled))
    {
      hide Recorded, TokensHold, Sum;
      EntryAdded(entries, clock, issued, cancelled, path, entry);
      SumWith(entries, path, entry);
      AbsentChangesNothing(entries, path);
      clock := clock + 1;
      bytes := bytes + entry.bytes;
      entries := entries[path := entry];
      issued := issued + 1;
    }

    /** A request is needed unless the slot holds an answer, or a request, for
        exactly this version of the file. */
    method Prepare(path: Path, source: Option<Source>) returns (needed: bool)
      requires Valid()
      modifies this
      ensures Valid()
      ensures needed <==> !(path in old(entries) && old(entries)[path].source == source)
      ensures path in entries && entries[path].source == source
      ensures old(issued) <= issued && old(cancelled) <= cancelled
      ensures needed ==>
                && IsStep(old(View()), Insert(path, Loading, source), View(), maxBytes)
                && issued == old(issued) + 1
                && entries[path] == CachedImage(Loading, source, 0, clock, old(issued), false)
                && entries[path].token !in cancelled
                && Evicted(old(entries)[path := entries[path]], entries, maxBytes)
                && (path in old(entries) ==> old(entries)[path].token in cancelled)
      ensures !needed ==> View() == Looked(old(View()), path)
    {
      hide Recorded, TokensHold, Sum, Evicted, WithinBudget, IsStep, PendingLoads;
      if path in entries && entries[path].source == source {
        Touch(path);
        return false;
      }
      ghost var s := View();
      InsertWithSource(path, Loading, source);
      LoadInserted(s, path, source, View(), maxBytes);
      TokenOfEntry(entries, issued, cancelled, path);
      needed := true;
    }

    /** The token of a request is handed out once. */
    method RequestToken(path: Path) returns (token: Option<nat>)
      requires Valid()
      modifies this`entries
      ensures Valid()
      ensures token.Some? <==> path in old(entries) && !old(entries)[path].requested
      ensures token.Some? ==>
                token.value == old(entries)[path].token && token.value !in cancelled
      ensures View() == Requested(old(View()), path)
      ensures token.Some? ==> entries == old(entries)[path := old(entries)[path].(requested := true)]
      ensures token.None? ==> entries == old(entries)
    {
      hide Recorded, TokensHold, Sum, WithinBudget;
      if path !in entries || entries[path].requested {
        RequestedBefore(View(), path);
        return None;
      }
      BudgetParts(entries, maxBytes);
      TokenOfEntry(entries, issued, cancelled, path);
      token := Some(entries[path].token);
      SameButRequested(entries, clock, issued, cancelled, path);
      entries := entries[path := entries[path].(requested := true)];
      BudgetParts(entries, maxBytes);
    }

    /** Accepts a completion only for the request that still occupies the slot;
        then the image stays, and no pending load is pushed out. */
    method Complete(path: Path, token: nat, state: ImageState) returns (accepted: bool)
      requires Valid()
      modifies this
      ensures Valid() && IsStep(old(View()), Finish(path, token, state), View(), maxBytes)
      ensures old(issued) <= issued && old(cancelled) <= cancelled
      ensures accepted <==> Accepts(old(View()), path, token)
      ensures !accepted ==> View() == old(View()) && bytes == old(bytes)
      ensures accepted ==>
                && path in entries && entries[path].state == Kept(state, maxBytes)
                && Evicted(old(entries)[path := entries[path]], entries, maxBytes)
                && forall p :: p in old(entries) && p != path && old(entries)[p].state.Loading? ==> p in entries
      ensures accepted ==>
                entries[path] == old(entries)[path].(
                  state := entries[path].state, bytes := entries[path].bytes, used := clock)
      ensures accepted && state.Ready? ==>
                if state.pixels <= maxBytes then entries[path].state == state && entries[path].bytes == state.pixels
                else entries[path].state == Missing && entries[path].bytes == 0
      ensures accepted && !state.Ready? ==> entries[path].state == state && entries[path].bytes == 0
    {
      hide Recorded, TokensHold, Evicted, PendingLoads, Sum, WithinBudget, IsStep;
      ghost var s := View();
      if path !in entries {
        NotAccepted(s, path, token, state, maxBytes);
        return false;
      }
      if token in cancelled || token != entries[path].token || !entries[path].state.Loading? {
        NotAccepted(s, path, token, state, maxBytes);
        return false;
      }
      ghost var before := entries;
      var kept := if ImageBytes(state) > maxBytes then Missing else state;
      var size := ImageBytes(kept);
      var entry := entries[path].(state := kept, bytes := size, used := clock + 1);
      Completed(entries, clock, issued, cancelled, path, entry);
      SumWith(entries, path, entry);
      SumWithout(entries, path);
      bytes := SaturatingSub(bytes, entries[path].bytes) + size;
      clock := clock + 1;
      entries := entries[path := entry];
      assert View() == Finished(s, path, Kept(state, maxBytes));
      EnforceBudget();
      FinishAccepted(s, path, token, state, View(), maxBytes);
      StepOnlyCancels(s, Finish(path, token, state), View(), maxBytes);
      CompletedSurvives(before, path, entry, entries, maxBytes);
      accepted := true;
    }

    /** `HashMap::retain` without touching the byte count: sound because what goes
        occupies nothing. */
    method RetainWithout(gone: set<Path>)
      requires Valid() && forall p :: p in gone && p in entries ==> !entries[p].state.Ready?
      modifies this`entries, this`cancelled
      ensures Valid() && View() == Dropped(old(View()), gone)
      ensures issued == old(issued) && old(cancelled) <= cancelled
    {
      hide Recorded, TokensHold, Sum, WithinBudget, Lost;
      UnreadyDropped(entries, clock, gone, maxBytes);
      EntriesDropped(entries, clock, issued, cancelled, gone);
      LostTokens(entries, gone);
      cancelled := cancelled + set p | p in entries && p in gone :: entries[p].token;
      entries := entries - gone;
    }

    method ClearPortableMisses()
      requires Valid()
      modifies this`entries, this`cancelled
      ensures Valid()
      ensures View() ==
                Dropped(old(View()), set p | p in old(entries) && IsPortablePath(p) && old(entries)[p].state.Missing?)
      ensures issued == old(issued) && old(cancelled) <= cancelled
    {
      hide Recorded, TokensHold, Sum, WithinBudget, IsPortablePath, Dropped;
      RetainWithout(set p | p in entries && IsPortablePath(p) && entries[p].state.Missing?);
    }

    method CancelPendingExcept(keep: set<Path>)
      requires Valid()
      modifies this`entries, this`cancelled
      ensures Valid()
      ensures View() ==
                Dropped(old(View()),
                        set p | p in old(entries) && old(entries)[p].state.Loading?
                                && !IsKept(p, old(entries)[p], keep))
      ensures forall p :: p in entries <==>
                && p in old(entries)
                && (!old(entries)[p].state.Loading? || p in keep
                    || (old(entries)[p].source.Some? && old(entries)[p].source.value.path in keep))
      ensures issued == old(issued) && old(cancelled) <= cancelled
    {
      hide Recorded, TokensHold, Sum, WithinBudget, Dropped;
      DroppedParts(View(), set p | p in entries && entries[p].state.Loading? && !IsKept(p, entries[p], keep));
      RetainWithout(set p | p in entries && entries[p].state.Loading? && !IsKept(p, entries[p], keep));
    }

    /** Removes the chosen entries one by one. */
    method RemoveAll(gone: set<Path>)
      requires Consistent()
      modifies this
      ensures Consistent() && View() == Dropped(old(View()), gone)
      ensures issued == old(issued) && old(cancelled) <= cancelled
    {
      hide Consistent, Dropped;
      var rest := gone;
      ghost var s := View();
      DroppedNone(s);
      assert gone - rest == {};
      while rest != {}
        invariant rest <= gone && Consistent() && View() == Dropped(s, gone - rest)
      {
        var p :| p in rest;
        DroppedOneMore(s, gone - rest, p);
        assert gone - rest + {p} == gone - (rest - {p});
        var _ := Remove(p);
        rest := rest - {p};
      }
      assert gone - rest == gone;
    }

    /** Whatever is at one of the paths, or was made from one of them, goes. */
    method InvalidatePaths(paths: set<Path>)
      requires Valid()
      modifies this
      ensures Valid() && View() == Dropped(old(View()), set p | p in old(entries) && IsKept(p, old(entries)[p], paths))
      ensures forall p :: p in entries <==>
                && p in old(entries) && p !in paths
                && !(old(entries)[p].source.Some? && old(entries)[p].source.value.path in paths)
      ensures issued == old(issued) && old(cancelled) <= cancelled
    {
      hide Consistent, WithinBudget, Dropped;
      ghost var s := View();
      DroppedParts(s, set p | p in entries && IsKept(p, entries[p], paths));
      RemoveAll(set p | p in entries && IsKept(p, entries[p], paths));
      DroppedFits(s, View(), (set p | p in old(entries) && IsKept(p, old(entries)[p], paths)), maxBytes);
    }

    method InvalidateDirectory(directory: Path)
      requires Valid()
      modifies this
      ensures Valid()
      ensures View() ==
                Dropped(old(View()), set p | p in old(entries) && IsInDirectory(p, old(entries)[p], directory))
      ensures forall p :: p in entries <==>
                && p in old(entries) && !(p != [] && p[..|p| - 1] == directory)
                && (old(entries)[p].source.Some? ==>
                      var file := old(entries)[p].source.value.path;
                      !(file != [] && file[..|file| - 1] == directory))
      ensures issued == old(issued) && old(cancelled) <= cancelled
    {
      hide Consistent, WithinBudget, Dropped;
      ghost var s := View();
      DroppedParts(s, set p | p in entries && IsInDirectory(p, entries[p], directory));
      RemoveAll(set p | p in entries && IsInDirectory(p, entries[p], directory));
      DroppedFits(s, View(), (set p | p in old(entries) && IsInDirectory(p, old(entries)[p], directory)), maxBytes);
    }

    /** Drops the images of files that the new listing knows in another version. */
    method ReconcileSources(listing: map<Path, Source>) returns (changed: set<Path>)
      requires Valid()
      modifies this
      ensures Valid()
      ensures View() == Dropped(old(View()), set p | p in old(entries) && IsOutdated(old(entries)[p], listing))
      ensures forall p :: p in entries <==>
                && p in old(entries)
                && !(old(entries)[p].source.Some? && old(entries)[p].source.value.path in listing
                     && listing[old(entries)[p].source.value.path] != old(entries)[p].source.value)
      ensures issued == old(issued) && old(cancelled) <= cancelled
      ensures forall path :: path in changed <==> exists p :: p in old(entries) && IsOutdated(old(entries)[p], listing)
                                                              && old(entries)[p].source.value.path == path
    {
      hide Consistent, WithinBudget, Dropped;
      ghost var s := View();
      DroppedParts(s, set p | p in entries && IsOutdated(entries[p], listing));
      changed := set p | p in entries && IsOutdated(entries[p], listing) :: entries[p].source.value.path;
      RemoveAll(set p | p in entries && IsOutdated(entries[p], listing));
      DroppedFits(s, View(), (set p | p in old(entries) && IsOutdated(old(entries)[p], listing)), maxBytes);
    }

    /** Removes entries that need not be kept, oldest first, down to the target. */
    method TrimOldest(target: nat, keep: set<Path>, ghost before: Entries) returns (ghost last: Option<Path>)
      requires Consistent() && Trimmed(before, entries, keep)
      requires forall p :: p in before && before[p].bytes > 0 ==> p in entries
      requires forall p, q :: p in before && q in before && before[p].used == before[q].used ==> p == q
      modifies this
      ensures Consistent() && Trimmed(before, entries, keep) && LastRemoved(before, entries, last, target)
      ensures exists gone :: View() == Dropped(old(View()), gone)
      ensures bytes <= target || forall p :: p in entries ==> IsKept(p, entries[p], keep)
    {
      hide Consistent, Recorded, TokensHold, Sum, Evicted, IsVictim, WithinBudget, Lost, Dropped, BackInBudget,
        IsStep, PendingLoads;
      hide Trimmed, LastRemoved, IsKept;
      last := None;
      ghost var s, gone: set<Path> := View(), {};
      DroppedNone(s);
      FirstRemoved(before, entries, target);
      while bytes > target
        invariant Consistent() && Trimmed(before, entries, keep) && View() == Dropped(s, gone)
        invariant LastRemoved(before, entries, last, target)
        decreases |entries|
      {
        var candidates := set p | p in entries && !IsKept(p, entries[p], keep);
        var oldest := Oldest(candidates);
        if oldest.None? {
          assert forall p :: p in entries ==> p in candidates || IsKept(p, entries[p], keep);
          break;
        }
        ConsistentParts();
        TrimmedOne(before, entries, keep, oldest.value);
        NextRemoved(before, entries, oldest.value, target);
        OneLess(entries, oldest.value);
        DroppedParts(View(), {oldest.value});
        DroppedOneMore(s, gone, oldest.value);
        last, gone := oldest, gone + {oldest.value};
        var _ := Remove(oldest.value);
      }
    }

    /** Shrinks to `targetBytes` without touching what is kept; when even that is
        too much, only kept entries are left. */
    method TrimTo(targetBytes: nat, keep: set<Path>)
      requires Valid()
      modifies this
      ensures Valid() && Trimmed(old(entries), entries, keep)
      ensures View() == Dropped(old(View()), old(entries).Keys - entries.Keys)
      ensures issued == old(issued) && old(cancelled) <= cancelled
      ensures bytes <= targetBytes || forall p :: p in entries ==> IsKept(p, entries[p], keep)
      ensures (forall p :: p in old(entries) && old(entries)[p].bytes > 0 ==> p in entries)
              || exists p :: p in old(entries) && p !in entries && old(entries)[p].bytes > 0
                             && Sum(entries) + old(entries)[p].bytes > AtMost(targetBytes, maxBytes)
      ensures forall p :: p in old(entries) && p !in entries ==>
                p !in keep && (old(entries)[p].source.Some? ==> old(entries)[p].source.value.path !in keep)
    {
      hide Consistent, Recorded, TokensHold, Sum, Evicted, IsVictim, WithinBudget, Lost, Dropped, BackInBudget,
        IsStep, PendingLoads;
      hide Trimmed, LastRemoved, IsKept, AtMost;
      ghost var before, s := entries, View();
      ConsistentParts();
      RecordedParts(before, clock);
      var target := AtMost(targetBytes, maxBytes);
      TargetIsSmaller(targetBytes, maxBytes);
      ghost var empty := set p | p in entries && entries[p].bytes == 0 && !IsKept(p, entries[p], keep);
      RemoveAll(set p | p in entries && entries[p].bytes == 0 && !IsKept(p, entries[p], keep));
      DroppedParts(s, empty);
      EmptyTrimmed(before, entries, keep);
      ConsistentParts();
      ghost var last := TrimOldest(target, keep, before);
      DroppedTwice(s, empty, View());
      LastRemovedMeans(before, entries, last, target);
      TrimmedParts(before, entries, keep);
      KeptAreIn(before, entries, keep);
      FewerFit(before, entries, maxBytes);
      ConsistentParts();
    }
  }

  lemma DroppedParts(s: CacheState, gone: set<Path>)
    ensures var s' := Dropped(s, gone);
            && s'.entries == s.entries - gone && s'.clock == s.clock && s'.issued == s.issued
            && s.cancelled <= s'.cancelled
            && (forall p :: p in gone && p in s.entries ==> s.entries[p].token in s'.cancelled)
  {
  }

  /** Two removals one after the other are one. */
  lemma DroppedTwice(s: CacheState, first: set<Path>, s': CacheState)
    requires exists gone :: s' == Dropped(Dropped(s, first), gone)
    ensures s' == Dropped(s, s.entries.Keys - s'.entries.Keys)
  {
    var gone :| s' == Dropped(Dropped(s, first), gone);
    var all := s.entries.Keys - s'.entries.Keys;
    assert s'.entries == s.entries - all;
    LostTwice(s.entries, s.entries - first, s'.entries);
  }

  lemma LostTwice(a: Entries, b: Entries, c: Entries)
    requires KeptEntries(a, b) && KeptEntries(b, c)
    ensures Lost(a, c) == Lost(a, b) + Lost(b, c)
  {
    forall t ensures t in Lost(a, c) <==> t in Lost(a, b) + Lost(b, c) {
      if t in Lost(a, c) {
        var p :| p in a && p !in c && a[p].token == t;
        assert p in b ==> p in b && p !in c && b[p].token == t;
      }
      if t in Lost(a, b) {
        var p :| p in a && p !in b && a[p].token == t;
        assert p !in c;
      }
      if t in Lost(b, c) {
        var p :| p in b && p !in c && b[p].token == t;
        assert p in a && a[p].token == t;
      }
    }
  }

  lemma LostTokens(entries: Entries, gone: set<Path>)
    ensures Lost(entries, entries - gone) == set p | p in entries && p in gone :: entries[p].token
  {
  }

  lemma DroppedFits(s: CacheState, s': CacheState, gone: set<Path>, maxBytes: nat)
    requires WithinBudget(s.entries, maxBytes) && s' == Dropped(s, gone)
    ensures WithinBudget(s'.entries, maxBytes)
  {
    FewerFit(s.entries, s'.entries, maxBytes);
  }

  lemma InsertTooLarge(s: CacheState, path: Path, state: ImageState, source: Option<Source>, maxBytes: nat)
    requires ImageBytes(state) > maxBytes
    ensures IsStep(s, Insert(path, state, source), Dropped(s, {path}), maxBytes)
  {
  }

  lemma InsertFits(
    s: CacheState, removed: CacheState, path: Path, state: ImageState, source: Option<Source>, added: CacheState,
    maxBytes: nat)
    requires removed == Dropped(s, {path}) && ImageBytes(state) <= maxBytes
    requires var entry := CachedImage(state, source, ImageBytes(state), removed.clock + 1, removed.issued, false);
             added == CacheState(
                        removed.entries[path := entry], removed.clock + 1, removed.issued + 1, removed.cancelled)
    ensures forall s' :: BackInBudget(added, s', maxBytes) ==> IsStep(s, Insert(path, state, source), s', maxBytes)
  {
    hide Dropped, BackInBudget;
  }

  lemma NothingShrunk(s: CacheState, maxBytes: nat)
    ensures Shrunk(s, s, maxBytes)
  {
    NothingEvicted(s.entries, maxBytes);
    NothingLost(s.entries);
  }

  lemma ShrunkOneMore(s: CacheState, now: CacheState, victim: Path, maxBytes: nat)
    requires Shrunk(s, now, maxBytes) && IsVictim(now.entries, victim) && !WithinBudget(now.entries, maxBytes)
    requires forall p :: p in s.entries ==> s.entries[p].bytes == ImageBytes(s.entries[p].state)
    requires forall p, q :: p in s.entries && q in s.entries && s.entries[p].used == s.entries[q].used ==> p == q
    ensures Shrunk(s, Dropped(now, {victim}), maxBytes)
    ensures victim in now.entries && |Dropped(now, {victim}).entries| < |now.entries|
  {
    hide Evicted, IsVictim, WithinBudget, Lost, Dropped;
    VictimEvicted(s.entries, now.entries, victim, maxBytes);
    EvictedParts(s.entries, now.entries, maxBytes);
    VictimIsThere(now.entries, victim);
    LostOneMore(s.entries, now.entries, victim);
    OneDropped(now, victim);
    OneLess(now.entries, victim);
  }

  lemma BackAfterEviction(s: CacheState, s': CacheState, maxBytes: nat)
    requires Shrunk(s, s', maxBytes) && WithinBudget(s'.entries, maxBytes)
    ensures BackInBudget(s, s', maxBytes)
  {
    hide Shrunk, WithinBudget;
  }

  lemma BackInBudgetParts(s: CacheState, s': CacheState, maxBytes: nat)
    requires BackInBudget(s, s', maxBytes)
    ensures Evicted(s.entries, s'.entries, maxBytes) && WithinBudget(s'.entries, maxBytes)
    ensures s'.clock == s.clock && s'.issued == s.issued && s.cancelled <= s'.cancelled
  {
    hide Evicted, WithinBudget;
  }

  /** No flag is ever taken back, and no token is issued twice. */
  lemma StepOnlyCancels(s: CacheState, operation: Operation, s': CacheState, maxBytes: nat)
    requires IsStep(s, operation, s', maxBytes)
    ensures s.issued <= s'.issued && s.cancelled <= s'.cancelled
  {
    hide Evicted, WithinBudget, Lost;
  }

  /** What inserting a new load comes to. */
  lemma LoadInserted(s: CacheState, path: Path, source: Option<Source>, s': CacheState, maxBytes: nat)
    requires IsStep(s, Insert(path, Loading, source), s', maxBytes) && path in s'.entries
    ensures s'.issued == s.issued + 1
    ensures s'.entries[path] == CachedImage(Loading, source, 0, s'.clock, s.issued, false)
    ensures Evicted(s.entries[path := s'.entries[path]], s'.entries, maxBytes)
    ensures path in s.entries ==> s.entries[path].token in s'.cancelled
  {
    hide WithinBudget, Evicted, Dropped;
    var removed := Dropped(s, {path});
    var added := Inserted(removed, path, Loading, source);
    DroppedParts(s, {path});
    BackInBudgetParts(added, s', maxBytes);
    KeptEntry(added.entries, s'.entries, path, maxBytes);
    ReplacedEntry(s.entries, path, added.entries[path]);
  }

  lemma RequestedBefore(s: CacheState, path: Path)
    requires path in s.entries ==> s.entries[path].requested
    ensures Requested(s, path) == s
  {
  }

  lemma NotAccepted(s: CacheState, path: Path, token: nat, state: ImageState, maxBytes: nat)
    requires !Accepts(s, path, token)
    ensures IsStep(s, Finish(path, token, state), s, maxBytes)
  {
  }

  lemma FinishAccepted(s: CacheState, path: Path, token: nat, state: ImageState, s': CacheState, maxBytes: nat)
    requires Accepts(s, path, token) && BackInBudget(Finished(s, path, Kept(state, maxBytes)), s', maxBytes)
    ensures IsStep(s, Finish(path, token, state), s', maxBytes)
    ensures Evicted(Finished(s, path, Kept(state, maxBytes)).entries, s'.entries, maxBytes)
  {
    hide Evicted, WithinBudget;
  }

  /** Kept entries are untouched, entries that hold nothing are gone, and the
      others went in the order of their last use. */
  ghost predicate Trimmed(before: Entries, after: Entries, keep: set<Path>) {
    && KeptEntries(before, after)
    && (forall p :: p in before && IsKept(p, before[p], keep) ==> p in after)
    && (forall p :: p in after && !IsKept(p, after[p], keep) ==> after[p].bytes > 0)
    && (forall p, q :: p in after && p in before && q in before
                       && before[q].bytes > 0 && !IsKept(p, before[p], keep) ==>
          (before[p].used <= before[q].used ==> q in after))
  }

  function AtMost(a: nat, b: nat): nat {
    if a <= b then a else b
  }

  lemma TargetIsSmaller(a: nat, b: nat)
    ensures AtMost(a, b) <= a
  {
  }

  /** One more removal in the loop of `TrimTo`. */
  ghost predicate LastRemoved(before: Entries, entries: Entries, last: Option<Path>, target: nat) {
    match last
    case None => forall p :: p in before && before[p].bytes > 0 ==> p in entries
    case Some(p) => p in before && p !in entries && before[p].bytes > 0 && Sum(entries) + before[p].bytes > target
  }

  lemma LastRemovedMeans(before: Entries, entries: Entries, last: Option<Path>, target: nat)
    requires LastRemoved(before, entries, last, target)
    ensures (forall p :: p in before && before[p].bytes > 0 ==> p in entries)
            || exists p :: p in before && p !in entries && before[p].bytes > 0
                 && Sum(entries) + before[p].bytes > target
  {
    hide Sum;
  }

  lemma FirstRemoved(before: Entries, entries: Entries, target: nat)
    requires forall p :: p in before && before[p].bytes > 0 ==> p in entries
    ensures LastRemoved(before, entries, None, target)
  {
  }

  lemma NextRemoved(before: Entries, entries: Entries, victim: Path, target: nat)
    requires victim in before && victim in entries && entries[victim] == before[victim] && before[victim].bytes > 0
    requires Sum(entries) > target
    ensures LastRemoved(before, entries - {victim}, Some(victim), target)
  {
    SumWithout(entries, victim);
  }

  lemma TrimmedParts(before: Entries, after: Entries, keep: set<Path>)
    requires Trimmed(before, after, keep)
    ensures KeptEntries(before, after)
  {
  }

  lemma KeptAreIn(before: Entries, after: Entries, keep: set<Path>)
    requires Trimmed(before, after, keep)
    ensures forall p :: p in before && p !in after ==>
              p !in keep && (before[p].source.Some? ==> before[p].source.value.path !in keep)
  {
  }

  lemma EmptyTrimmed(before: Entries, after: Entries, keep: set<Path>)
    requires after == before - set p | p in before && before[p].bytes == 0 && !IsKept(p, before[p], keep)
    ensures Trimmed(before, after, keep)
    ensures forall p :: p in before && before[p].bytes > 0 ==> p in after
  {
    hide IsKept;
  }

  lemma TrimmedOne(before: Entries, entries: Entries, keep: set<Path>, oldest: Path)
    requires Trimmed(before, entries, keep)
    requires forall p, q :: p in before && q in before && before[p].used == before[q].used ==> p == q
    requires var candidates := set p | p in entries && !IsKept(p, entries[p], keep);
             oldest in candidates && forall p :: p in candidates ==> entries[oldest].used <= entries[p].used
    ensures Trimmed(before, entries - {oldest}, keep)
    ensures oldest in before && entries[oldest] == before[oldest] && before[oldest].bytes > 0
  {
    hide IsKept;
    var after := entries - {oldest};
    assert entries[oldest] == before[oldest];
    forall p, q | p in after && p in before && q in before && before[q].bytes > 0 && !IsKept(p, before[p], keep)
                  && before[p].used <= before[q].used
      ensures q in after
    {
      assert entries[p] == before[p];
      assert entries[oldest].used <= entries[p].used;
    }
  }

  lemma TokenDropped(entries: Entries, clock: nat, issued: nat, cancelled: set<nat>, path: Path)
    requires Recorded(entries, clock) && TokensHold(entries, issued, cancelled) && path in entries
    ensures Recorded(entries - {path}, clock)
    ensures TokensHold(entries - {path}, issued, cancelled + {entries[path].token})
  {
    var after := entries - {path};
    forall t | 0 <= t < issued ensures t !in cancelled + {entries[path].token} <==> Occupies(after, t) {
      if Occupies(entries, t) && t != entries[path].token {
        var p :| p in entries && entries[p].token == t;
        assert p in after;
      }
      if Occupies(after, t) {
        var p :| p in after && after[p].token == t;
        assert p in entries;
      }
    }
  }

  lemma NothingEvicted(entries: Entries, maxBytes: nat)
    ensures Evicted(entries, entries, maxBytes)
  {
  }

  lemma BudgetParts(entries: Entries, maxBytes: nat)
    ensures WithinBudget(entries, maxBytes) <==> Sum(entries) <= maxBytes && |entries| <= MAX_CACHE_ENTRIES
  {
  }

  lemma RecordedParts(entries: Entries, clock: nat)
    requires Recorded(entries, clock)
    ensures forall p :: p in entries ==> entries[p].bytes == ImageBytes(entries[p].state) && entries[p].used <= clock
    ensures forall p, q :: p in entries && q in entries && entries[p].used == entries[q].used ==> p == q
  {
  }

  lemma OldestIsVictim(entries: Entries, path: Path)
    requires path in entries
    requires var images := set p | p in entries && !entries[p].state.Loading?;
             var candidates := if images == {} then entries.Keys else images;
             path in candidates && forall p :: p in candidates ==> entries[path].used <= entries[p].used
    ensures IsVictim(entries, path)
  {
    var images := set p | p in entries && !entries[p].state.Loading?;
    assert forall p :: p in entries && !entries[p].state.Loading? ==> p in images;
  }

  lemma OneLess(entries: Entries, path: Path)
    requires path in entries
    ensures |entries - {path}| == |entries| - 1
  {
    assert (entries - {path}).Keys == entries.Keys - {path};
  }

  lemma EmptyFits(entries: Entries, maxBytes: nat)
    ensures entries.Keys == {} ==> Sum(entries) == 0 && |entries| == 0
  {
    if entries.Keys == {} {
      assert entries == map[];
    }
  }

  ghost function PendingLoads(entries: Entries): (loads: set<Path>)
    ensures forall p :: p in loads <==> p in entries && entries[p].state.Loading?
  {
    set p | p in entries && entries[p].state.Loading?
  }

  lemma Touched(entries: Entries, clock: nat, issued: nat, cancelled: set<nat>, path: Path)
    requires Recorded(entries, clock) && TokensHold(entries, issued, cancelled) && path in entries
    ensures var after := entries[path := entries[path].(used := clock + 1)];
            && Recorded(after, clock + 1) && TokensHold(after, issued, cancelled)
            && Sum(after) == Sum(entries) && |after| == |entries|
  {
    hide Sum, Occupies;
    var after := entries[path := entries[path].(used := clock + 1)];
    SumWith(entries, path, after[path]);
    SumWithout(entries, path);
    assert after.Keys == entries.Keys;
    SameOccupants(entries, after);
  }

  lemma SameOccupants(entries: Entries, after: Entries)
    requires after.Keys == entries.Keys && forall p :: p in entries ==> after[p].token == entries[p].token
    ensures forall t :: Occupies(after, t) <==> Occupies(entries, t)
  {
    forall t ensures Occupies(after, t) <==> Occupies(entries, t) {
      if Occupies(after, t) {
        var p :| p in after && after[p].token == t;
        assert p in entries && entries[p].token == t;
      }
      if Occupies(entries, t) {
        var p :| p in entries && entries[p].token == t;
        assert p in after && after[p].token == t;
      }
    }
  }

  lemma SameButRequested(entries: Entries, clock: nat, issued: nat, cancelled: set<nat>, path: Path)
    requires Recorded(entries, clock) && TokensHold(entries, issued, cancelled) && path in entries
    ensures var after := entries[path := entries[path].(requested := true)];
            && Recorded(after, clock) && TokensHold(after, issued, cancelled)
            && Sum(after) == Sum(entries) && |after| == |entries|
  {
    hide Sum;
    var after := entries[path := entries[path].(requested := true)];
    SumWith(entries, path, after[path]);
    SumWithout(entries, path);
    assert after.Keys == entries.Keys;
    SameOccupants(entries, after);
  }

  lemma SmallerFits(entries: Entries, path: Path, maxBytes: nat)
    requires WithinBudget(entries, maxBytes)
    ensures WithinBudget(entries - {path}, maxBytes)
  {
    if path in entries {
      SumWithout(entries, path);
      OneLess(entries, path);
    } else {
      AbsentChangesNothing(entries, path);
    }
  }

  lemma ReplacedEntry(before: Entries, path: Path, entry: CachedImage)
    ensures (before - {path})[path := entry] == before[path := entry]
  {
  }

  lemma EntryAdded(
    entries: Entries, clock: nat, issued: nat, cancelled: set<nat>, path: Path, entry: CachedImage)
    requires Recorded(entries, clock) && TokensHold(entries, issued, cancelled) && path !in entries
    requires entry.bytes == ImageBytes(entry.state) && entry.used == clock + 1 && entry.token == issued
    ensures Recorded(entries[path := entry], clock + 1) && TokensHold(entries[path := entry], issued + 1, cancelled)
  {
    var after := entries[path := entry];
    forall t | 0 <= t < issued + 1 ensures t !in cancelled <==> Occupies(after, t) {
      if t == issued {
        assert after[path].token == t;
      } else {
        if Occupies(entries, t) {
          var p :| p in entries && entries[p].token == t;
          assert after[p].token == t;
        }
        if Occupies(after, t) {
          var p :| p in after && after[p].token == t;
          assert p in entries;
        }
      }
    }
  }

  lemma KeptEntry(before: Entries, after: Entries, path: Path, maxBytes: nat)
    requires Evicted(before, after, maxBytes) && path in after
    ensures path in before && after[path] == before[path]
  {
  }

  lemma TokenOfEntry(entries: Entries, issued: nat, cancelled: set<nat>, path: Path)
    requires TokensHold(entries, issued, cancelled) && path in entries
    ensures entries[path].token !in cancelled
  {
    assert Occupies(entries, entries[path].token);
  }

  /** The entry used last stays whenever it fits, unless it is an image among as
      many pending loads as there is room for. */
  lemma NewestSurvives(before: Entries, path: Path, entry: CachedImage, after: Entries, maxBytes: nat)
    requires WithinBudget(before, maxBytes)
    requires forall p :: p in before ==> before[p].bytes == ImageBytes(before[p].state)
    requires forall p :: p in before && p != path ==> before[p].used < entry.used
    requires entry.bytes == ImageBytes(entry.state) <= maxBytes
    requires Evicted(before[path := entry], after, maxBytes) && WithinBudget(after, maxBytes)
    ensures path in after <==> entry.state.Loading? || |PendingLoads(before - {path})| < MAX_CACHE_ENTRIES
    ensures path in after ==> after[path] == entry
  {
    hide Evicted;
    if path in after {
      KeptEntry(before[path := entry], after, path, maxBytes);
    }
    EvictedParts(before[path := entry], after, maxBytes);
    if path !in after {
      NewestGone(before, path, entry, after, maxBytes);
    } else if !entry.state.Loading? {
      LoadsSurvive(before, path, entry, after, maxBytes);
    }
  }

  lemma EvictedParts(before: Entries, after: Entries, maxBytes: nat)
    requires Evicted(before, after, maxBytes)
    ensures KeptEntries(before, after) && LatestSurvive(before, after) && LoadsGoLast(before, after)
    ensures NoneToSpare(before, after, maxBytes)
  {
  }

  lemma NewestGone(before: Entries, path: Path, entry: CachedImage, after: Entries, maxBytes: nat)
    requires WithinBudget(before, maxBytes) && path !in after
    requires forall p :: p in before ==> before[p].bytes == ImageBytes(before[p].state)
    requires forall p :: p in before && p != path ==> before[p].used < entry.used
    requires entry.bytes == ImageBytes(entry.state) <= maxBytes
    requires KeptEntries(before[path := entry], after) && LatestSurvive(before[path := entry], after)
    requires LoadsGoLast(before[path := entry], after) && NoneToSpare(before[path := entry], after, maxBytes)
    ensures !entry.state.Loading? && |PendingLoads(before - {path})| >= MAX_CACHE_ENTRIES
  {
    var full := before[path := entry];
    OthersAreOfTheOtherKind(before, path, entry, after);
    var v :| v in full && v !in after && !WithinBudget(after[v := full[v]], maxBytes);
    assert full[v].bytes <= maxBytes by {
      if v != path { PartOfSum(before, v); }
    }
    OneMoreExceeds(after, v, full[v], maxBytes);
    SubsetSize(after.Keys, PendingLoads(before - {path}));
  }

  /** When the newest entry went, everything of its kind did. */
  lemma OthersAreOfTheOtherKind(before: Entries, path: Path, entry: CachedImage, after: Entries)
    requires path !in after
    requires forall p :: p in before ==> before[p].bytes == ImageBytes(before[p].state)
    requires forall p :: p in before && p != path ==> before[p].used < entry.used
    requires KeptEntries(before[path := entry], after) && LatestSurvive(before[path := entry], after)
    requires LoadsGoLast(before[path := entry], after)
    ensures entry.state.Loading? ==> after == map[]
    ensures forall p :: p in after ==> after[p].bytes == 0 && p in PendingLoads(before - {path})
  {
    var full := before[path := entry];
    forall p | p in after
      ensures p in before && p != path && after[p] == before[p] && before[p].state.Loading? != entry.state.Loading?
    {
      assert full[p] == before[p] && full[p].used <= full[path].used;
    }
    if entry.state.Loading? {
      assert SomeLoadGone(full, after);
      assert forall p :: p !in after;
    }
  }

  lemma OneMoreExceeds(after: Entries, v: Path, entry: CachedImage, maxBytes: nat)
    requires forall p :: p in after ==> after[p].bytes == 0
    requires v !in after && entry.bytes <= maxBytes && !WithinBudget(after[v := entry], maxBytes)
    ensures |after| >= MAX_CACHE_ENTRIES && |after.Keys| == |after|
  {
    EmptySum(after);
    SumWith(after, v, entry);
    AbsentChangesNothing(after, v);
    assert after[v := entry].Keys == after.Keys + {v};
  }

  lemma LoadsSurvive(before: Entries, path: Path, entry: CachedImage, after: Entries, maxBytes: nat)
    requires WithinBudget(after, maxBytes) && path in after && !entry.state.Loading?
    requires KeptEntries(before[path := entry], after) && LoadsGoLast(before[path := entry], after)
    ensures |PendingLoads(before - {path})| < MAX_CACHE_ENTRIES
  {
    var full, loads := before[path := entry], PendingLoads(before - {path});
    assert full[path] == after[path];
    assert !SomeLoadGone(full, after);
    assert loads + {path} <= after.Keys by {
      forall p | p in loads ensures p in after {
        assert full[p].state.Loading?;
      }
    }
    SubsetSize(loads + {path}, after.Keys);
    assert |loads + {path}| == |loads| + 1;
  }

  lemma Completed(
    entries: Entries, clock: nat, issued: nat, cancelled: set<nat>, path: Path, entry: CachedImage)
    requires Recorded(entries, clock) && TokensHold(entries, issued, cancelled) && path in entries
    requires entry.bytes == ImageBytes(entry.state) && entry.used == clock + 1 && entry.token == entries[path].token
    ensures Recorded(entries[path := entry], clock + 1) && TokensHold(entries[path := entry], issued, cancelled)
    ensures forall p :: p in entries ==> entries[p].bytes == ImageBytes(entries[p].state) && entries[p].used <= clock
  {
    var after := entries[path := entry];
    assert after.Keys == entries.Keys;
    SameOccupants(entries, after);
  }

  lemma CompletedSurvives(before: Entries, path: Path, entry: CachedImage, after: Entries, maxBytes: nat)
    requires WithinBudget(before, maxBytes) && path in before && before[path].state.Loading?
    requires forall p :: p in before ==> before[p].bytes == ImageBytes(before[p].state)
    requires forall p :: p in before && p != path ==> before[p].used < entry.used
    requires entry.bytes == ImageBytes(entry.state) <= maxBytes
    requires Evicted(before[path := entry], after, maxBytes) && WithinBudget(after, maxBytes)
    ensures path in after && after[path] == entry
    ensures forall p :: p in before && p != path && before[p].state.Loading? ==> p in after
  {
    NewestSurvives(before, path, entry, after, maxBytes);
    var loads := PendingLoads(before - {path});
    SubsetSize(loads, (before - {path}).Keys);
    OneLess(before, path);
    EvictedParts(before[path := entry], after, maxBytes);
    assert before[path := entry].Keys == before.Keys;
    assert |before[path := entry]| == |before|;
    assert !SomeLoadGone(before[path := entry], after);
    forall p | p in before && p != path && before[p].state.Loading? ensures p in after {
      assert before[path := entry][p].state.Loading?;
    }
  }

  /** An entry belongs to a set of paths by its key or by the file it shows. */
  predicate IsKept(key: Path, entry: CachedImage, keep: set<Path>) {
    key in keep || (entry.source.Some? && entry.source.value.path in keep)
  }

  predicate IsIn(path: Path, directory: Path) {
    path != [] && Parent(path) == directory
  }

  predicate IsInDirectory(key: Path, entry: CachedImage, directory: Path) {
    IsIn(key, directory) || (entry.source.Some? && IsIn(entry.source.value.path, directory))
  }

  predicate IsOutdated(entry: CachedImage, listing: map<Path, Source>) {
    entry.source.Some? && entry.source.value.path in listing && listing[entry.source.value.path] != entry.source.value
  }

  lemma UnreadyDropped(entries: Entries, clock: nat, gone: set<Path>, maxBytes: nat)
    requires Recorded(entries, clock) && WithinBudget(entries, maxBytes)
    requires forall p :: p in gone && p in entries ==> !entries[p].state.Ready?
    ensures Sum(entries - gone) == Sum(entries) && WithinBudget(entries - gone, maxBytes)
  {
    hide Sum;
    SumWithoutEmpty(entries, gone);
    FewerEntries(entries, entries - gone);
  }

  lemma EntriesDropped(entries: Entries, clock: nat, issued: nat, cancelled: set<nat>, gone: set<Path>)
    requires Recorded(entries, clock) && TokensHold(entries, issued, cancelled)
    ensures Recorded(entries - gone, clock)
    ensures TokensHold(entries - gone, issued, cancelled + set p | p in entries && p in gone :: entries[p].token)
    ensures KeptEntries(entries, entries - gone)
  {
    var after := entries - gone;
    var now := cancelled + set p | p in entries && p in gone :: entries[p].token;
    forall t | 0 <= t < issued ensures t !in now <==> Occupies(after, t) {
      if Occupies(after, t) {
        var p :| p in after && after[p].token == t;
        assert p in entries;
      }
      if t !in now {
        assert t !in cancelled && Occupies(entries, t);
        var p :| p in entries && entries[p].token == t;
        assert p in after;
      }
    }
  }

  lemma {:induction false} FewerFit(before: Entries, after: Entries, maxBytes: nat)
    requires WithinBudget(before, maxBytes) && KeptEntries(before, after)
    ensures WithinBudget(after, maxBytes)
    decreases |before|
  {
    if before.Keys == after.Keys {
      assert before == after;
    } else {
      assert after.Keys < before.Keys;
      var p :| p in before.Keys && p !in after.Keys;
      SmallerFits(before, p, maxBytes);
      OneLess(before, p);
      FewerFit(before - {p}, after, maxBytes);
    }
  }
}

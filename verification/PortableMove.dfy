/** Moving off a portable device (`src/fs/portable.rs`): export writes down what
    it copied, and only what was written down is removed afterwards. */
module PortableMove {
  import opened Prelude
  import opened Texts
  import opened FileSystems
  import opened PortableTotals

  datatype Exported = Exported(id: string, name: string, isFolder: bool, size: Option<nat>)

  /** What the device was asked for: an object with its children, or a removal. */
  datatype Event = Inspected(id: string, info: ObjectInfo, children: seq<string>) | Removed(id: string)

  function Ids(children: seq<ObjectInfo>): (ids: seq<string>)
    ensures |ids| == |children| && forall i :: 0 <= i < |ids| ==> ids[i] == children[i].id
  {
    seq(|children|, i requires 0 <= i < |children| => children[i].id)
  }

  function Without(children: seq<ObjectInfo>, gone: set<string>): (left: seq<ObjectInfo>)
    ensures (forall i :: 0 <= i < |children| ==> children[i].id in gone) ==> left == []
  {
    if children == [] then []
    else
      var front := Without(children[..|children| - 1], gone);
      if children[|children| - 1].id in gone then front else front + [children[|children| - 1]]
  }

  /** The listing once some objects are gone: they list nothing and are listed nowhere. */
  function Pruned(listing: Listing, gone: set<string>): Listing {
    map f | f in listing && f !in gone :: Without(listing[f], gone)
  }

  lemma {:induction false} WithoutTwice(children: seq<ObjectInfo>, a: set<string>, b: set<string>)
    ensures Without(Without(children, a), b) == Without(children, a + b)
  {
    if children != [] {
      var n := |children| - 1;
      WithoutTwice(children[..n], a, b);
      var front := Without(children[..n], a);
      assert (front + [children[n]])[..|front|] == front;
    }
  }

  lemma {:induction false} WithoutNothing(children: seq<ObjectInfo>)
    ensures Without(children, {}) == children
  {
    if children != [] {
      WithoutNothing(children[..|children| - 1]);
    }
  }

  lemma PrunedTwice(listing: Listing, a: set<string>, b: set<string>)
    ensures Pruned(Pruned(listing, a), b) == Pruned(listing, a + b)
  {
    forall f | f in listing && f !in a + b ensures Without(Without(listing[f], a), b) == Without(listing[f], a + b) {
      WithoutTwice(listing[f], a, b);
    }
  }

  lemma PrunedNothing(listing: Listing)
    ensures Pruned(listing, {}) == listing
  {
    forall f | f in listing ensures Without(listing[f], {}) == listing[f] {
      WithoutNothing(listing[f]);
    }
  }

  /** A device that may change by itself before every call, unless it is steady.
      The log keeps what was seen and what was removed. */
  class PortableDevice {
    const steady: bool
    var infos: map<string, ObjectInfo>
    var listing: Listing
    /** How many calls have failed for a reason of the device's own. */
    var faults: nat
    ghost var log: seq<Event>

    method Change()
      modifies this`infos, this`listing
      ensures steady ==> infos == old(infos) && listing == old(listing)
    {
      if !steady {
        infos, listing := *, *;
      }
    }

    method GetInfo(id: string) returns (info: Option<ObjectInfo>, fault: bool)
      modifies this`infos, this`listing, this`faults
      ensures faults == old(faults) + if fault then 1 else 0
      ensures steady ==> infos == old(infos) && listing == old(listing)
      ensures info.Some? ==> id in infos && info.value == infos[id]
      ensures steady && info.None? && !fault ==> id !in infos
    {
      Change();
      fault := Fails();
      info := if id in infos && !fault then Some(infos[id]) else None;
    }

    /** Whether one call fails, which nobody can foresee. */
    method Fails() returns (fault: bool)
      modifies this`faults
      ensures faults == old(faults) + if fault then 1 else 0
    {
      fault := *;
      if fault {
        faults := faults + 1;
      }
    }

    method ListChildren(id: string) returns (children: Option<seq<ObjectInfo>>, fault: bool)
      modifies this`infos, this`listing, this`faults
      ensures faults == old(faults) + if fault then 1 else 0
      ensures steady ==> infos == old(infos) && listing == old(listing)
      ensures children.Some? ==> id in listing && children.value == listing[id]
      ensures steady && children.None? && !fault ==> id !in listing
    {
      Change();
      fault := Fails();
      children := if id in listing && !fault then Some(listing[id]) else None;
    }

    /** Deletes one object, never what is below it. */
    method Delete(id: string) returns (done: bool, fault: bool)
      modifies this
      ensures faults == old(faults) + if fault then 1 else 0
      ensures done ==> log == old(log) + [Removed(id)]
      ensures !done ==> log == old(log)
      ensures steady && done ==> infos == old(infos) - {id} && listing == Pruned(old(listing), {id})
      ensures steady && !done ==> infos == old(infos) && listing == old(listing)
      ensures steady && !done && !fault ==> id !in infos || (infos[id].isFolder && id in listing && listing[id] != [])
    {
      Change();
      fault := Fails();
      done := id in infos && (infos[id].isFolder && id in listing ==> listing[id] == []) && !fault;
      if done {
        infos := infos - {id};
        listing := Pruned(listing, {id});
        log := log + [Removed(id)];
      }
    }

    method Inspect(entry: Exported) returns (seen: Option<Event>, fault: bool)
      modifies this
      ensures faults >= old(faults) && (fault ==> faults > old(faults))
      ensures steady ==> infos == old(infos) && listing == old(listing)
      ensures seen.Some? ==> seen.value.Inspected? && seen.value.id == entry.id && log == old(log) + [seen.value]
      ensures seen.None? ==> log == old(log)
      ensures steady && seen.Some? ==>
                && entry.id in infos && seen.value.info == infos[entry.id]
                && seen.value.children == (if entry.isFolder && entry.id in listing then Ids(listing[entry.id]) else [])
      ensures steady && seen.None? && !fault ==> entry.id !in infos || (entry.isFolder && entry.id !in listing)
    {
      seen := None;
      var info;
      info, fault := GetInfo(entry.id);
      if info.None? {
        return;
      }
      var children: Option<seq<ObjectInfo>> := Some([]);
      if entry.isFolder {
        children, fault := ListChildren(entry.id);
        if children.None? {
          return;
        }
      }
      seen := Some(Inspected(entry.id, info.value, Ids(children.value)));
      log := log + [seen.value];
    }
  }

  // ----- The two passes over the inventory -----

  datatype RemovalResult = AllRemoved | RootRefused | SourceChanged | NewChildren | DeviceFault | Interrupted

  predicate MetadataHolds(entry: Exported, current: ObjectInfo) {
    && (entry.isFolder || entry.size.Some?)
    && entry.id == current.id && entry.name == current.name
    && entry.isFolder == current.isFolder && entry.size == current.size
  }

  predicate IsDeviceRoot(entry: Exported) {
    IsBlank(entry.id) || entry.id == "DEVICE"
  }

  function CopiedIds(inventory: seq<Exported>): (ids: set<string>)
    ensures forall id :: id in ids <==> exists i :: 0 <= i < |inventory| && inventory[i].id == id
  {
    set i | 0 <= i < |inventory| :: inventory[i].id
  }

  /** The entry was seen as it was copied, with no child that was not copied. */
  ghost predicate SeenAsCopied(inventory: seq<Exported>, i: nat, event: Event)
    requires i < |inventory|
  {
    && event.Inspected? && event.id == inventory[i].id && MetadataHolds(inventory[i], event.info)
    && forall c :: c in event.children ==> c in CopiedIds(inventory)
  }

  /** The entry was seen as it was copied, and empty if it is a folder. */
  ghost predicate SeenEmpty(inventory: seq<Exported>, i: nat, event: Event)
    requires i < |inventory|
  {
    && event.Inspected? && event.id == inventory[i].id && MetadataHolds(inventory[i], event.info)
    && (inventory[i].isFolder ==> event.children == [])
  }

  ghost predicate FirstPass(inventory: seq<Exported>, events: seq<Event>) {
    && |events| == |inventory|
    && forall i :: 0 <= i < |inventory| ==> SeenAsCopied(inventory, i, events[i])
  }

  /** `n` entries were removed in inventory order, each right after it was seen;
      one more may have been looked at. */
  ghost predicate SecondPass(inventory: seq<Exported>, events: seq<Event>, n: nat) {
    && n <= |inventory| && 2 * n <= |events| <= 2 * n + 1
    && (forall i :: 0 <= i < n ==>
          SeenEmpty(inventory, i, events[2 * i]) && events[2 * i + 1] == Removed(inventory[i].id))
    && (|events| == 2 * n + 1 ==> events[2 * n].Inspected?)
  }

  ghost predicate NothingRemoved(events: seq<Event>) {
    forall p :: 0 <= p < |events| ==> events[p].Inspected?
  }

  ghost predicate SafeRun(inventory: seq<Exported>, events: seq<Event>) {
    || NothingRemoved(events)
    || (|inventory| <= |events| && FirstPass(inventory, events[..|inventory|])
        && exists n :: SecondPass(inventory, events[|inventory|..], n))
  }

  /** Whatever the device did in between: a removal is of an inventory entry that
      was just seen unchanged, empty if a folder, and only after a first pass
      that found all of them unchanged. */
  lemma RemovalsAreJustified(inventory: seq<Exported>, events: seq<Event>, p: nat)
    requires SafeRun(inventory, events) && p < |events| && events[p].Removed?
    ensures |inventory| < p && FirstPass(inventory, events[..|inventory|])
    ensures exists i :: 0 <= i < |inventory| && events[p].id == inventory[i].id
              && SeenEmpty(inventory, i, events[p - 1])
              && var info := events[p - 1].info;
                 && info.id == inventory[i].id && info.name == inventory[i].name
                 && info.isFolder == inventory[i].isFolder && info.size == inventory[i].size
                 && if info.isFolder then events[p - 1].children == [] else info.size.Some?
  {
    assert !NothingRemoved(events);
    var rest := events[|inventory|..];
    var n :| SecondPass(inventory, rest, n);
    assert p >= |inventory|;
    var q := p - |inventory|;
    assert rest[q] == events[p];
    var i := q / 2;
    assert q == 2 * i || q == 2 * i + 1;
    assert i < n ==> SeenEmpty(inventory, i, rest[2 * i]);
    assert q == 2 * i + 1 && rest[2 * i] == events[p - 1];
  }

  function IdsOf(inventory: seq<Exported>): (ids: seq<string>)
    ensures |ids| == |inventory| && forall i :: 0 <= i < |ids| ==> ids[i] == inventory[i].id
  {
    seq(|inventory|, i requires 0 <= i < |inventory| => inventory[i].id)
  }

  /** What was removed, in order. */
  function RemovedIds(events: seq<Event>): seq<string> {
    if events == [] then []
    else
      var front, last := RemovedIds(events[..|events| - 1]), events[|events| - 1];
      if last.Removed? then front + [last.id] else front
  }

  lemma {:induction false} RemovedIdsJoin(a: seq<Event>, b: seq<Event>)
    ensures RemovedIds(a + b) == RemovedIds(a) + RemovedIds(b)
  {
    if b == [] {
      assert a + b == a;
    } else {
      var n := |b| - 1;
      RemovedIdsJoin(a, b[..n]);
      assert (a + b)[..|a + b| - 1] == a + b[..n];
    }
  }

  lemma {:induction false} LookingRemovesNothing(events: seq<Event>)
    requires NothingRemoved(events)
    ensures RemovedIds(events) == []
  {
    if events == [] {
    } else {
      LookingRemovesNothing(events[..|events| - 1]);
    }
  }

  /** The second pass removed the first `n` entries, and nothing else. */
  lemma {:induction false} SecondPassRemoves(inventory: seq<Exported>, events: seq<Event>, n: nat)
    requires SecondPass(inventory, events, n)
    ensures RemovedIds(events) == IdsOf(inventory[..n])
  {
    hide SeenEmpty;
    if |events| == 2 * n + 1 {
      var front := events[..2 * n];
      assert SecondPass(inventory, front, n);
      PairsRemove(inventory, front, n);
      assert RemovedIds(events) == RemovedIds(front);
    } else {
      PairsRemove(inventory, events, n);
    }
  }

  lemma {:induction false} PairsRemove(inventory: seq<Exported>, events: seq<Event>, n: nat)
    requires SecondPass(inventory, events, n) && |events| == 2 * n
    ensures RemovedIds(events) == IdsOf(inventory[..n])
  {
    hide SeenEmpty, RemovedIds;
    if n == 0 {
      NoneRemoved(events);
    } else {
      var front := events[..2 * (n - 1)];
      assert SecondPass(inventory, front, n - 1);
      PairsRemove(inventory, front, n - 1);
      OnePairRemoves(inventory, events, n);
      assert IdsOf(inventory[..n]) == IdsOf(inventory[..n - 1]) + [inventory[n - 1].id];
    }
  }

  lemma NoneRemoved(events: seq<Event>)
    requires events == []
    ensures RemovedIds(events) == []
  {
  }

  lemma OnePairRemoves(inventory: seq<Exported>, events: seq<Event>, n: nat)
    requires 0 < n && SecondPass(inventory, events, n) && |events| == 2 * n
    ensures RemovedIds(events) == RemovedIds(events[..2 * (n - 1)]) + [inventory[n - 1].id]
  {
    var i := n - 1;
    var looked := events[..2 * i + 1];
    assert SeenEmpty(inventory, i, events[2 * i]) && events[2 * i + 1] == Removed(inventory[i].id);
    assert events[..2 * n - 1] == looked && looked[..2 * i] == events[..2 * i];
    assert RemovedIds(looked) == RemovedIds(events[..2 * i]);
  }

  /** So a safe run removes a first part of the inventory, each entry once. */
  lemma SafeRunRemovesPrefix(inventory: seq<Exported>, events: seq<Event>)
    requires SafeRun(inventory, events)
    ensures RemovedIds(events) <= IdsOf(inventory)
  {
    hide SeenEmpty, SeenAsCopied, SecondPass;
    if NothingRemoved(events) {
      LookingRemovesNothing(events);
    } else {
      var first, rest := events[..|inventory|], events[|inventory|..];
      var n: nat :| SecondPass(inventory, rest, n);
      FirstPassLooks(inventory, first);
      LookingRemovesNothing(first);
      SecondPassRemoves(inventory, rest, n);
      assert events == first + rest;
      RemovedIdsJoin(first, rest);
      FirstIds(inventory, n, rest);
    }
  }

  lemma FirstIds(inventory: seq<Exported>, n: nat, events: seq<Event>)
    requires SecondPass(inventory, events, n)
    ensures IdsOf(inventory[..n]) <= IdsOf(inventory)
  {
  }

  lemma FullRunRemovesAll(inventory: seq<Exported>, first: seq<Event>, second: seq<Event>)
    requires FirstPass(inventory, first) && SecondPass(inventory, second, |inventory|)
    ensures RemovedIds(first + second) == IdsOf(inventory)
  {
    hide SeenEmpty, SeenAsCopied, SecondPass;
    FirstPassLooks(inventory, first);
    LookingRemovesNothing(first);
    SecondPassRemoves(inventory, second, |inventory|);
    RemovedIdsJoin(first, second);
    assert inventory[..|inventory|] == inventory;
  }

  lemma FirstPassLooks(inventory: seq<Exported>, first: seq<Event>)
    requires FirstPass(inventory, first)
    ensures NothingRemoved(first)
  {
  }

  /** The id that every device has, or no id at all. */
  predicate NamesRoot(id: string) {
    id == "DEVICE" || forall c :: c in id ==> IsWhitespace(c)
  }

  /** What an entry was seen with is not what was copied, or cannot be told. */
  predicate HasChanged(entry: Exported, event: Event) {
    && event.Inspected?
    && (event.info.id != entry.id || event.info.name != entry.name || event.info.isFolder != entry.isFolder
        || event.info.size != entry.size || (!entry.isFolder && entry.size.None?))
  }

  ghost predicate NoneChanged(inventory: seq<Exported>, events: seq<Event>) {
    && |events| <= |inventory|
    && forall k :: 0 <= k < |events| ==> events[k].Inspected? && !HasChanged(inventory[k], events[k])
  }

  /** Everything looked at so far was as it had been copied. */
  ghost predicate PassSoFar(inventory: seq<Exported>, events: seq<Event>) {
    && NoneChanged(inventory, events) && NothingRemoved(events)
    && forall k :: 0 <= k < |events| ==> SeenAsCopied(inventory, k, events[k])
  }

  /** What the first pass saw is why it stopped: whatever was seen before the end had
      not changed, and the last entry has changed or got new children. */
  ghost predicate ExplainedBy(inventory: seq<Exported>, events: seq<Event>, result: RemovalResult) {
    var n := |events|;
    && n <= |inventory|
    && (result.AllRemoved? ==> n == |inventory|)
    && (match result
        case SourceChanged =>
          n > 0 && NoneChanged(inventory, events[..n - 1]) && HasChanged(inventory[n - 1], events[n - 1])
        case NewChildren =>
          n > 0 && NoneChanged(inventory, events) && exists c :: c in events[n - 1].children && IsNew(inventory, c)
        case _ => NoneChanged(inventory, events))
  }

  ghost predicate IsNew(inventory: seq<Exported>, id: string) {
    forall i :: 0 <= i < |inventory| ==> inventory[i].id != id
  }

  lemma NothingSeen(inventory: seq<Exported>)
    ensures PassSoFar(inventory, []) && NothingRemoved([]) && ExplainedBy(inventory, [], RootRefused)
  {
  }

  lemma SeenSoFar(inventory: seq<Exported>, events: seq<Event>)
    requires PassSoFar(inventory, events)
    ensures NothingRemoved(events)
    ensures ExplainedBy(inventory, events, Interrupted) && ExplainedBy(inventory, events, DeviceFault)
    ensures |events| == |inventory| ==> FirstPass(inventory, events) && ExplainedBy(inventory, events, AllRemoved)
  {
    hide SeenAsCopied, HasChanged;
  }

  lemma OneMoreSeen(inventory: seq<Exported>, events: seq<Event>, event: Event)
    requires PassSoFar(inventory, events) && |events| < |inventory|
    requires event.Inspected? && event.id == inventory[|events|].id
    ensures var entry, now := inventory[|events|], events + [event];
            && NothingRemoved(now)
            && if !MetadataHolds(entry, event.info) then ExplainedBy(inventory, now, SourceChanged)
               else if exists c :: c in event.children && c !in CopiedIds(inventory)
               then ExplainedBy(inventory, now, NewChildren)
               else PassSoFar(inventory, now)
  {
    var now := events + [event];
    assert now[..|events|] == events;
    if c :| c in event.children && c !in CopiedIds(inventory) {
      assert IsNew(inventory, c);
    }
  }

  lemma RootsAreNamed(inventory: seq<Exported>)
    ensures forall i :: 0 <= i < |inventory| ==> (IsDeviceRoot(inventory[i]) <==> NamesRoot(inventory[i].id))
  {
    hide IsBlank;
    forall i | 0 <= i < |inventory| ensures IsDeviceRoot(inventory[i]) <==> NamesRoot(inventory[i].id) {
      BlankMeans(inventory[i].id);
    }
  }

  /** What an export of a device that holds still leaves in the inventory. */
  ghost predicate IsPostorder(inventory: seq<Exported>, infos: map<string, ObjectInfo>, listing: Listing) {
    && (forall i, j :: 0 <= i < j < |inventory| ==> inventory[i].id != inventory[j].id)
    && forall i :: 0 <= i < |inventory| ==> EntryInOrder(inventory, infos, listing, i)
  }

  /** The entry describes its object, and its children come before it. */
  ghost predicate EntryInOrder(inventory: seq<Exported>, infos: map<string, ObjectInfo>, listing: Listing, i: nat)
    requires i < |inventory|
  {
    && inventory[i].id in infos && inventory[i] == EntryOf(infos[inventory[i].id])
    && infos[inventory[i].id].id == inventory[i].id
    && (inventory[i].isFolder ==>
          && inventory[i].id in listing
          && forall c :: c in Ids(listing[inventory[i].id]) ==> c in CopiedIds(inventory[..i]))
  }

  function EntryOf(info: ObjectInfo): Exported {
    Exported(info.id, info.name, info.isFolder, info.size)
  }

  /** Nothing that the second pass would refuse for its own sake. */
  ghost predicate CanBeVerified(inventory: seq<Exported>) {
    forall i :: 0 <= i < |inventory| ==>
      !IsDeviceRoot(inventory[i]) && (inventory[i].isFolder || inventory[i].size.Some?)
  }

  lemma CopiedGrow(inventory: seq<Exported>, i: nat)
    requires i <= |inventory|
    ensures CopiedIds(inventory[..i]) <= CopiedIds(inventory)
    ensures i < |inventory| ==> CopiedIds(inventory[..i + 1]) == CopiedIds(inventory[..i]) + {inventory[i].id}
  {
    forall id | id in CopiedIds(inventory[..i]) ensures id in CopiedIds(inventory) {
      var k :| 0 <= k < i && inventory[..i][k].id == id;
      assert inventory[k].id == id;
    }
    if i < |inventory| {
      forall id ensures id in CopiedIds(inventory[..i + 1]) <==> id in CopiedIds(inventory[..i]) + {inventory[i].id} {
        if id in CopiedIds(inventory[..i + 1]) {
          var k :| 0 <= k < i + 1 && inventory[..i + 1][k].id == id;
          assert k < i ==> inventory[..i][k].id == id;
        }
        if id in CopiedIds(inventory[..i]) {
          var k :| 0 <= k < i && inventory[..i][k].id == id;
          assert inventory[..i + 1][k].id == id;
        }
        assert inventory[..i + 1][i].id == inventory[i].id;
      }
    }
  }

  /** The first pass: it only looks. */
  method ValidateInventory(inventory: seq<Exported>, device: PortableDevice, control: Control)
    returns (result: RemovalResult)
    modifies device, control
    ensures old(device.log) <= device.log && NothingRemoved(device.log[|old(device.log)|..])
    ensures result.AllRemoved? ==> FirstPass(inventory, device.log[|old(device.log)|..]) && CanBeVerified(inventory)
    ensures device.steady ==> device.infos == old(device.infos) && device.listing == old(device.listing)
    ensures device.faults >= old(device.faults) && (result.Interrupted? ==> control.raised)
    ensures device.steady && device.faults == old(device.faults) && CanBeVerified(inventory) ==>
              (IsPostorder(inventory, device.infos, device.listing) ==> result.AllRemoved? || result.Interrupted?)
    ensures result.RootRefused? <==> exists i :: 0 <= i < |inventory| && NamesRoot(inventory[i].id)
    ensures ExplainedBy(inventory, device.log[|old(device.log)|..], result)
  {
    hide IsBlank, IsPostorder, CanBeVerified, SeenAsCopied, IsDeviceRoot, HasChanged, ExplainedBy, NoneChanged,
      NamesRoot, MetadataHolds, PassSoFar, NothingRemoved, FirstPass;
    RootsAreNamed(inventory);
    NothingSeen(inventory);
    ghost var events: seq<Event> := [];
    assert device.log[|device.log|..] == [];
    if exists i :: 0 <= i < |inventory| && IsDeviceRoot(inventory[i]) {
      ghost var i :| 0 <= i < |inventory| && IsDeviceRoot(inventory[i]);
      RootCannotBeVerified(inventory, i);
      return RootRefused;
    }
    var copied := CopiedIds(inventory);
    for i := 0 to |inventory|
      invariant device.log == old(device.log) + events && |events| == i && PassSoFar(inventory, events)
      invariant device.faults >= old(device.faults)
      invariant device.steady ==> device.infos == old(device.infos) && device.listing == old(device.listing)
    {
      assert device.log[|old(device.log)|..] == events;
      SeenSoFar(inventory, events);
      var cancelled := control.Poll();
      if cancelled {
        return Interrupted;
      }
      var seen, fault := device.Inspect(inventory[i]);
      SteadyInspection(inventory, i, device.infos, device.listing);
      if seen.None? {
        return DeviceFault;
      }
      OneMoreSeen(inventory, events, seen.value);
      events := events + [seen.value];
      assert device.log[|old(device.log)|..] == events;
      if !MetadataHolds(inventory[i], seen.value.info) {
        return SourceChanged;
      }
      if exists c :: c in seen.value.children && c !in copied {
        return NewChildren;
      }
    }
    assert device.log[|old(device.log)|..] == events;
    SeenSoFar(inventory, events);
    SeenIsVerified(inventory, events);
    result := AllRemoved;
  }

  lemma SeenIsVerified(inventory: seq<Exported>, events: seq<Event>)
    requires FirstPass(inventory, events) && forall i :: 0 <= i < |inventory| ==> !IsDeviceRoot(inventory[i])
    ensures CanBeVerified(inventory)
  {
    hide IsDeviceRoot;
    forall i | 0 <= i < |inventory| ensures inventory[i].isFolder || inventory[i].size.Some? {
      assert SeenAsCopied(inventory, i, events[i]);
    }
  }

  lemma RootCannotBeVerified(inventory: seq<Exported>, i: nat)
    requires i < |inventory| && IsDeviceRoot(inventory[i])
    ensures !CanBeVerified(inventory)
  {
  }

  /** On a steady device an inspection finds the entry as the inventory has it. */
  lemma SteadyInspection(inventory: seq<Exported>, i: nat, infos: map<string, ObjectInfo>, listing: Listing)
    requires i < |inventory|
    ensures CanBeVerified(inventory) && IsPostorder(inventory, infos, listing) ==>
              && inventory[i].id in infos && MetadataHolds(inventory[i], infos[inventory[i].id])
              && (inventory[i].isFolder ==> inventory[i].id in listing)
              && (inventory[i].isFolder ==>
                    forall c :: c in Ids(listing[inventory[i].id]) ==> c in CopiedIds(inventory))
  {
    if CanBeVerified(inventory) && IsPostorder(inventory, infos, listing) {
      assert EntryInOrder(inventory, infos, listing, i);
      CopiedGrow(inventory, i);
    }
  }

  /** The first `i` entries are gone from a steady device. */
  ghost predicate GoneSoFar(
    infos: map<string, ObjectInfo>, listing: Listing, nowInfos: map<string, ObjectInfo>, nowListing: Listing,
    inventory: seq<Exported>, i: nat)
    requires i <= |inventory|
  {
    var gone := CopiedIds(inventory[..i]);
    nowInfos == infos - gone && nowListing == Pruned(listing, gone)
  }

  lemma NextIsEmpty(
    infos: map<string, ObjectInfo>, listing: Listing, nowInfos: map<string, ObjectInfo>, nowListing: Listing,
    inventory: seq<Exported>, i: nat)
    requires i < |inventory| && IsPostorder(inventory, infos, listing) && CanBeVerified(inventory)
    requires GoneSoFar(infos, listing, nowInfos, nowListing, inventory, i)
    ensures var id := inventory[i].id;
            && id in nowInfos && MetadataHolds(inventory[i], nowInfos[id])
            && nowInfos[id].isFolder == inventory[i].isFolder
            && (inventory[i].isFolder ==> id in nowListing && nowListing[id] == [])
  {
    assert EntryInOrder(inventory, infos, listing, i);
    var gone, id := CopiedIds(inventory[..i]), inventory[i].id;
    assert id !in gone;
    if inventory[i].isFolder {
      forall k | 0 <= k < |listing[id]| ensures listing[id][k].id in gone {
        assert Ids(listing[id])[k] in Ids(listing[id]);
      }
    }
  }

  lemma OneMoreGone(
    infos: map<string, ObjectInfo>, listing: Listing, nowInfos: map<string, ObjectInfo>, nowListing: Listing,
    inventory: seq<Exported>, i: nat)
    requires i < |inventory| && GoneSoFar(infos, listing, nowInfos, nowListing, inventory, i)
    ensures GoneSoFar(
              infos, listing, nowInfos - {inventory[i].id}, Pruned(nowListing, {inventory[i].id}), inventory, i + 1)
  {
    CopiedGrow(inventory, i);
    PrunedTwice(listing, CopiedIds(inventory[..i]), {inventory[i].id});
  }

  lemma NothingGone(infos: map<string, ObjectInfo>, listing: Listing, inventory: seq<Exported>)
    ensures GoneSoFar(infos, listing, infos, listing, inventory, 0)
  {
    assert CopiedIds(inventory[..0]) == {};
    PrunedNothing(listing);
  }

  /** Two passes: look at everything, then look again and remove one by one.
      However the device changes, a first part of the inventory is removed, in
      order and each entry once, and all of it exactly on success. A steady
      device ends up without exactly the exported objects. */
  method RemoveExportInventory(inventory: seq<Exported>, device: PortableDevice, control: Control)
    returns (result: RemovalResult)
    modifies device, control
    ensures old(device.log) <= device.log && SafeRun(inventory, device.log[|old(device.log)|..])
    ensures RemovedIds(device.log[|old(device.log)|..]) <= IdsOf(inventory)
    ensures result.AllRemoved? ==>
              RemovedIds(device.log[|old(device.log)|..]) == IdsOf(inventory) && CanBeVerified(inventory)
    ensures device.faults >= old(device.faults)
    ensures device.steady && device.faults == old(device.faults) && CanBeVerified(inventory) ==>
              (IsPostorder(inventory, old(device.infos), old(device.listing)) ==>
                 result.AllRemoved? || (result.Interrupted? && control.raised))
    ensures device.steady && result.AllRemoved? ==>
              && device.infos == old(device.infos) - CopiedIds(inventory)
              && device.listing == Pruned(old(device.listing), CopiedIds(inventory))
  {
    hide *;
    ghost var infos, listing, start := device.infos, device.listing, |device.log|;
    result := ValidateInventory(inventory, device, control);
    ghost var middle := |device.log|;
    ghost var first := device.log[start..];
    if !result.AllRemoved? {
      OnlyLooked(inventory, first);
      SafeRunRemovesPrefix(inventory, first);
      return;
    }
    FirstPassLength(inventory, first);
    NothingGone(infos, listing, inventory);
    SecondPassStarts(inventory);
    assert device.log[middle..] == [];
    for i := 0 to |inventory|
      invariant middle <= |device.log| && device.log[..middle] == old(device.log) + first
      invariant SecondPass(inventory, device.log[middle..], i) && |device.log| == middle + 2 * i
      invariant device.faults >= old(device.faults)
      invariant device.steady ==> GoneSoFar(infos, listing, device.infos, device.listing, inventory, i)
    {
      ghost var second := device.log[middle..];
      BothPasses(inventory, first, second, i);
      LogParts(old(device.log), first, second, device.log, start, middle);
      if device.steady && CanBeVerified(inventory) && IsPostorder(inventory, infos, listing) {
        NextIsEmpty(infos, listing, device.infos, device.listing, inventory, i);
      }
      ghost var nowInfos, nowListing := device.infos, device.listing;
      ghost var events;
      result, events := RemoveNext(inventory, i, device, control);
      assert device.log[middle..] == second + events;
      if !result.AllRemoved? {
        LookedAtNext(inventory, second, events, i);
        BothPasses(inventory, first, second + events, i);
        LogParts(old(device.log), first, second + events, device.log, start, middle);
        SafeRunRemovesPrefix(inventory, first + (second + events));
        return;
      }
      RemovedNext(inventory, second, events, i);
      if device.steady {
        OneMoreGone(infos, listing, nowInfos, nowListing, inventory, i);
      }
    }
    BothPasses(inventory, first, device.log[middle..], |inventory|);
    LogParts(old(device.log), first, device.log[middle..], device.log, start, middle);
    AllGone(infos, listing, device.infos, device.listing, inventory, device.steady);
    FullRunRemovesAll(inventory, first, device.log[middle..]);
    result := AllRemoved;
  }

  lemma OnlyLooked(inventory: seq<Exported>, events: seq<Event>)
    requires NothingRemoved(events)
    ensures SafeRun(inventory, events)
  {
  }

  lemma FirstPassLength(inventory: seq<Exported>, events: seq<Event>)
    requires FirstPass(inventory, events)
    ensures |events| == |inventory|
  {
  }

  lemma SecondPassStarts(inventory: seq<Exported>)
    ensures SecondPass(inventory, [], 0)
  {
  }

  lemma BothPasses(inventory: seq<Exported>, first: seq<Event>, second: seq<Event>, n: nat)
    requires FirstPass(inventory, first) && SecondPass(inventory, second, n)
    ensures SafeRun(inventory, first + second)
  {
    assert (first + second)[..|inventory|] == first;
    assert (first + second)[|inventory|..] == second;
  }

  lemma LogParts(
    before: seq<Event>, first: seq<Event>, second: seq<Event>, log: seq<Event>, start: nat, middle: nat)
    requires start == |before| && middle == |before| + |first| && middle <= |log|
    requires log[..middle] == before + first && log[middle..] == second
    ensures before <= log && log[start..] == first + second
  {
    assert log == log[..middle] + log[middle..];
  }

  lemma LookedAtNext(inventory: seq<Exported>, second: seq<Event>, events: seq<Event>, i: nat)
    requires SecondPass(inventory, second, i) && |second| == 2 * i
    requires |events| <= 1 && (events != [] ==> events[0].Inspected?)
    ensures SecondPass(inventory, second + events, i)
  {
  }

  lemma RemovedNext(inventory: seq<Exported>, second: seq<Event>, events: seq<Event>, i: nat)
    requires SecondPass(inventory, second, i) && |second| == 2 * i && i < |inventory|
    requires |events| == 2 && SeenEmpty(inventory, i, events[0]) && events[1] == Removed(inventory[i].id)
    ensures SecondPass(inventory, second + events, i + 1)
  {
    var now := second + events;
    forall k | 0 <= k < i + 1
      ensures SeenEmpty(inventory, k, now[2 * k]) && now[2 * k + 1] == Removed(inventory[k].id)
    {
      if k < i {
        assert now[2 * k] == second[2 * k] && now[2 * k + 1] == second[2 * k + 1];
      }
    }
  }

  /** Looks at one entry again and removes it when it is still what was copied. */
  method RemoveNext(inventory: seq<Exported>, i: nat, device: PortableDevice, control: Control)
    returns (result: RemovalResult, ghost events: seq<Event>)
    requires i < |inventory|
    modifies device, control
    ensures device.log == old(device.log) + events
    ensures result.AllRemoved? ==>
              |events| == 2 && SeenEmpty(inventory, i, events[0]) && events[1] == Removed(inventory[i].id)
    ensures !result.AllRemoved? ==> |events| <= 1 && (events != [] ==> events[0].Inspected?)
    ensures events != [] ==>
              && (HasChanged(inventory[i], events[0]) <==> result.SourceChanged?)
              && (!HasChanged(inventory[i], events[0]) && inventory[i].isFolder && events[0].children != [] <==>
                    result.NewChildren?)
    ensures events == [] ==> result.Interrupted? || result.DeviceFault?
    ensures device.steady && result.AllRemoved? ==>
              && device.infos == old(device.infos) - {inventory[i].id}
              && device.listing == Pruned(old(device.listing), {inventory[i].id})
    ensures device.faults >= old(device.faults)
    ensures device.steady && device.faults == old(device.faults) ==>
              (var id := inventory[i].id;
               && id in old(device.infos) && MetadataHolds(inventory[i], old(device.infos)[id])
               && (inventory[i].isFolder ==> id in old(device.listing) && old(device.listing)[id] == []) ==>
                 result.AllRemoved? || (result.Interrupted? && control.raised))
  {
    hide IsBlank, Pruned;
    events := [];
    var cancelled := control.Poll();
    if cancelled {
      return Interrupted, events;
    }
    var seen, fault := device.Inspect(inventory[i]);
    if seen.None? {
      return DeviceFault, events;
    }
    events := [seen.value];
    if !MetadataHolds(inventory[i], seen.value.info) {
      return SourceChanged, events;
    }
    if inventory[i].isFolder && seen.value.children != [] {
      return NewChildren, events;
    }
    var done;
    done, fault := device.Delete(inventory[i].id);
    if !done {
      return DeviceFault, events;
    }
    events := events + [Removed(inventory[i].id)];
    result := AllRemoved;
  }

  lemma AllGone(
    infos: map<string, ObjectInfo>, listing: Listing, nowInfos: map<string, ObjectInfo>, nowListing: Listing,
    inventory: seq<Exported>, steady: bool)
    requires steady ==> GoneSoFar(infos, listing, nowInfos, nowListing, inventory, |inventory|)
    ensures steady ==> nowInfos == infos - CopiedIds(inventory) && nowListing == Pruned(listing, CopiedIds(inventory))
  {
    assert inventory[..|inventory|] == inventory;
  }

  // ----- Export -----

  /** What a steady device holds below one object. */
  datatype ObjectTree = ObjectTree(info: ObjectInfo, children: seq<ObjectTree>)

  function Infos(trees: seq<ObjectTree>): (infos: seq<ObjectInfo>)
    ensures |infos| == |trees| && forall i :: 0 <= i < |infos| ==> infos[i] == trees[i].info
  {
    seq(|trees|, i requires 0 <= i < |trees| => trees[i].info)
  }

  ghost predicate Describes(tree: ObjectTree, infos: map<string, ObjectInfo>, listing: Listing) {
    && tree.info.id in infos && infos[tree.info.id] == tree.info
    && (tree.info.isFolder ==> tree.info.id in listing && listing[tree.info.id] == Infos(tree.children))
    && (!tree.info.isFolder ==> tree.children == [])
    && forall i :: 0 <= i < |tree.children| ==> Describes(tree.children[i], infos, listing)
  }

  /** Children first, then the object itself. */
  function Postorder(tree: ObjectTree): (inventory: seq<Exported>)
    ensures inventory != [] && inventory[|inventory| - 1] == EntryOf(tree.info)
  {
    PostorderAll(tree.children) + [EntryOf(tree.info)]
  }

  function PostorderAll(trees: seq<ObjectTree>): seq<Exported> {
    if trees == [] then [] else PostorderAll(trees[..|trees| - 1]) + Postorder(trees[|trees| - 1])
  }

  function FileCount(tree: ObjectTree): nat {
    if tree.info.isFolder then FileCountAll(tree.children) else 1
  }

  function FileCountAll(trees: seq<ObjectTree>): nat {
    if trees == [] then 0 else FileCountAll(trees[..|trees| - 1]) + FileCount(trees[|trees| - 1])
  }

  function FilesIn(inventory: seq<Exported>): nat {
    if inventory == [] then 0
    else FilesIn(inventory[..|inventory| - 1]) + if inventory[|inventory| - 1].isFolder then 0 else 1
  }

  lemma {:induction false} FilesJoin(a: seq<Exported>, b: seq<Exported>)
    ensures FilesIn(a + b) == FilesIn(a) + FilesIn(b)
  {
    if b == [] {
      assert a + b == a;
    } else {
      var n := |b| - 1;
      FilesJoin(a, b[..n]);
      assert (a + b)[..|a + b| - 1] == a + b[..n];
    }
  }

  /** The count that is reported is the number of files in the inventory. */
  lemma {:induction false} FileCountMeans(tree: ObjectTree, infos: map<string, ObjectInfo>, listing: Listing)
    requires Describes(tree, infos, listing)
    ensures FileCount(tree) == FilesIn(Postorder(tree))
    decreases tree, 1, 0
  {
    var below, own := PostorderAll(tree.children), [EntryOf(tree.info)];
    ChildrenCount(tree, |tree.children|, infos, listing);
    assert tree.children[..|tree.children|] == tree.children;
    FilesJoin(below, own);
    assert own[..0] == [];
    if !tree.info.isFolder {
      assert below == [];
    }
  }

  lemma {:induction false} ChildrenCount(
    tree: ObjectTree, n: nat, infos: map<string, ObjectInfo>, listing: Listing)
    requires Describes(tree, infos, listing) && n <= |tree.children|
    ensures FileCountAll(tree.children[..n]) == FilesIn(PostorderAll(tree.children[..n]))
    decreases tree, 0, n
  {
    if n > 0 {
      ChildrenCount(tree, n - 1, infos, listing);
      FileCountMeans(tree.children[n - 1], infos, listing);
      assert tree.children[..n][..n - 1] == tree.children[..n - 1];
      FilesJoin(PostorderAll(tree.children[..n - 1]), Postorder(tree.children[n - 1]));
    }
  }

  ghost predicate AllInOrder(inventory: seq<Exported>, infos: map<string, ObjectInfo>, listing: Listing) {
    forall i :: 0 <= i < |inventory| ==> EntryInOrder(inventory, infos, listing, i)
  }

  lemma OrderJoins(a: seq<Exported>, b: seq<Exported>, infos: map<string, ObjectInfo>, listing: Listing)
    requires AllInOrder(a, infos, listing) && AllInOrder(b, infos, listing)
    ensures AllInOrder(a + b, infos, listing)
  {
    forall i | 0 <= i < |a + b| ensures EntryInOrder(a + b, infos, listing, i) {
      if i < |a| {
        assert EntryInOrder(a, infos, listing, i) && (a + b)[..i] == a[..i];
      } else {
        assert EntryInOrder(b, infos, listing, i - |a|);
        CopiedJoin(a, b[..i - |a|]);
        assert (a + b)[..i] == a + b[..i - |a|];
      }
    }
  }

  lemma CopiedJoin(a: seq<Exported>, b: seq<Exported>)
    ensures CopiedIds(a + b) == CopiedIds(a) + CopiedIds(b)
  {
    forall id ensures id in CopiedIds(a + b) <==> id in CopiedIds(a) + CopiedIds(b) {
      if id in CopiedIds(a) {
        var i :| 0 <= i < |a| && a[i].id == id;
        assert (a + b)[i].id == id;
      }
      if id in CopiedIds(b) {
        var i :| 0 <= i < |b| && b[i].id == id;
        assert (a + b)[|a| + i].id == id;
      }
      if id in CopiedIds(a + b) {
        var i :| 0 <= i < |a + b| && (a + b)[i].id == id;
        assert if i < |a| then a[i].id == id else b[i - |a|].id == id;
      }
    }
  }

  lemma {:induction false} ChildrenAreCopied(trees: seq<ObjectTree>, i: nat)
    requires i < |trees|
    ensures trees[i].info.id in CopiedIds(PostorderAll(trees))
  {
    var n := |trees| - 1;
    CopiedJoin(PostorderAll(trees[..n]), Postorder(trees[n]));
    if i < n {
      ChildrenAreCopied(trees[..n], i);
    } else {
      var last := Postorder(trees[n]);
      assert last[|last| - 1].id == trees[n].info.id;
    }
  }

  lemma {:induction false} PostorderIsOrdered(tree: ObjectTree, infos: map<string, ObjectInfo>, listing: Listing)
    requires Describes(tree, infos, listing)
    ensures AllInOrder(Postorder(tree), infos, listing)
    decreases tree, 1, 0
  {
    var below := PostorderAll(tree.children);
    ChildrenAreOrdered(tree, |tree.children|, infos, listing);
    assert tree.children[..|tree.children|] == tree.children;
    var inventory := below + [EntryOf(tree.info)];
    forall i | 0 <= i < |inventory| ensures EntryInOrder(inventory, infos, listing, i) {
      if i < |below| {
        assert EntryInOrder(below, infos, listing, i) && inventory[..i] == below[..i];
      } else {
        assert inventory[..i] == below;
        if tree.info.isFolder {
          forall c | c in Ids(listing[tree.info.id]) ensures c in CopiedIds(below) {
            var k :| 0 <= k < |tree.children| && Ids(listing[tree.info.id])[k] == c;
            ChildrenAreCopied(tree.children, k);
          }
        }
      }
    }
  }

  lemma {:induction false} ChildrenAreOrdered(
    tree: ObjectTree, n: nat, infos: map<string, ObjectInfo>, listing: Listing)
    requires Describes(tree, infos, listing) && n <= |tree.children|
    ensures AllInOrder(PostorderAll(tree.children[..n]), infos, listing)
    decreases tree, 0, n
  {
    if n > 0 {
      ChildrenAreOrdered(tree, n - 1, infos, listing);
      PostorderIsOrdered(tree.children[n - 1], infos, listing);
      assert tree.children[..n][..n - 1] == tree.children[..n - 1];
      OrderJoins(PostorderAll(tree.children[..n - 1]), Postorder(tree.children[n - 1]), infos, listing);
    }
  }

  ghost predicate UniqueIds(inventory: seq<Exported>) {
    forall i, j :: 0 <= i < j < |inventory| ==> inventory[i].id != inventory[j].id
  }

  datatype ExportResult = Complete | ExportFault | ExportCancelled

  /** Copies an object and what is below it; each copied object is written down
      behind everything that was copied below it. */
  method ExportObject(
    id: string, device: PortableDevice, control: Control, inventory: seq<Exported>, ghost tree: ObjectTree)
    returns (result: ExportResult, exported: seq<Exported>, completed: nat)
    requires device.steady && tree.info.id == id && Describes(tree, device.infos, device.listing)
    modifies device`infos, device`listing, device`faults, control
    ensures device.infos == old(device.infos) && device.listing == old(device.listing)
    ensures inventory <= exported
    ensures result.Complete? ==> exported == inventory + Postorder(tree) && completed == FileCount(tree)
    ensures result.ExportCancelled? ==> control.raised
    ensures device.faults >= old(device.faults) && (result.ExportFault? ==> device.faults > old(device.faults))
    decreases tree
  {
    hide *;
    TreeParts(tree, device.infos, device.listing);
    exported, completed := inventory, 0;
    var info, fault := device.GetInfo(id);
    if info.None? {
      return ExportFault, exported, completed;
    }
    var cancelled := control.Poll();
    if cancelled {
      return ExportCancelled, exported, completed;
    }
    // Creating, downloading and checking the local copy may fail.
    fault := device.Fails();
    if fault {
      return ExportFault, exported, completed;
    }
    var entry := EntryOf(info.value);
    if !info.value.isFolder {
      LeafExported(tree);
      return Complete, exported + [entry], 1;
    }
    var children;
    children, fault := device.ListChildren(id);
    if children.None? {
      return ExportFault, exported, completed;
    }
    NothingExported(inventory, tree.children);
    for i := 0 to |children.value|
      invariant device.infos == old(device.infos) && device.listing == old(device.listing)
      invariant device.faults >= old(device.faults)
      invariant exported == inventory + PostorderAll(tree.children[..i])
                  && completed == FileCountAll(tree.children[..i])
    {
      ChildParts(tree, device.infos, device.listing, i);
      var more;
      result, exported, more := ExportObject(children.value[i].id, device, control, exported, tree.children[i]);
      if !result.Complete? {
        return result, exported, completed;
      }
      completed := completed + more;
      ChildExported(inventory, tree.children, i);
    }
    FolderExported(inventory, tree);
    exported := exported + [entry];
    result := Complete;
  }

  lemma TreeParts(tree: ObjectTree, infos: map<string, ObjectInfo>, listing: Listing)
    requires Describes(tree, infos, listing)
    ensures tree.info.id in infos && infos[tree.info.id] == tree.info
    ensures tree.info.isFolder ==>
              tree.info.id in listing && listing[tree.info.id] == Infos(tree.children)
              && |listing[tree.info.id]| == |tree.children|
    ensures !tree.info.isFolder ==> tree.children == []
  {
  }

  lemma ChildParts(tree: ObjectTree, infos: map<string, ObjectInfo>, listing: Listing, i: nat)
    requires Describes(tree, infos, listing) && i < |tree.children|
    ensures Infos(tree.children)[i].id == tree.children[i].info.id && Describes(tree.children[i], infos, listing)
  {
  }

  lemma LeafExported(tree: ObjectTree)
    requires !tree.info.isFolder && tree.children == []
    ensures Postorder(tree) == [EntryOf(tree.info)] && FileCount(tree) == 1
  {
  }

  lemma NothingExported(inventory: seq<Exported>, trees: seq<ObjectTree>)
    ensures inventory == inventory + PostorderAll(trees[..0]) && FileCountAll(trees[..0]) == 0
  {
  }

  lemma ChildExported(inventory: seq<Exported>, trees: seq<ObjectTree>, i: nat)
    requires i < |trees|
    ensures (inventory + PostorderAll(trees[..i])) + Postorder(trees[i]) == inventory + PostorderAll(trees[..i + 1])
    ensures FileCountAll(trees[..i + 1]) == FileCountAll(trees[..i]) + FileCount(trees[i])
  {
    assert trees[..i + 1][..i] == trees[..i];
  }

  lemma FolderExported(inventory: seq<Exported>, tree: ObjectTree)
    requires tree.info.isFolder
    ensures (inventory + PostorderAll(tree.children[..|tree.children|])) + [EntryOf(tree.info)] ==
              inventory + Postorder(tree)
    ensures FileCountAll(tree.children[..|tree.children|]) == FileCount(tree)
  {
    assert tree.children[..|tree.children|] == tree.children;
  }

  // ----- Counting finds a tree -----

  /** Asking for one object gives what its folder lists. */
  ghost predicate IsConsistent(infos: map<string, ObjectInfo>, listing: Listing) {
    && (forall id :: id in infos ==> infos[id].id == id)
    && forall f, i :: f in listing && 0 <= i < |listing[f]| ==>
         listing[f][i].id in infos && infos[listing[f][i].id] == listing[f][i]
  }

  /** What counting leaves behind: every way down, each to another object. */
  ghost predicate IsCounted(listing: Listing, root: Item, reached: set<Way>) {
    && (forall w :: w in reached <==> Reached(listing, root, w))
    && !SomeIdRepeats(listing, root) && !SomeFolderUnlisted(listing, root)
  }

  ghost function WaysBelow(reached: set<Way>, way: Way): (below: set<Way>)
    ensures forall w :: w in below <==> w in reached && way <= w
  {
    set w | w in reached && way <= w
  }

  ghost function ChildCount(listing: Listing, root: Item, way: Way): nat {
    var item := ItemAt(listing, root, way);
    if item.Some? && item.value.info.isFolder && item.value.id in listing then |listing[item.value.id]| else 0
  }

  lemma ChildIsReached(listing: Listing, root: Item, reached: set<Way>, way: Way, i: nat)
    requires IsCounted(listing, root, reached) && way in reached && i < ChildCount(listing, root, way)
    ensures way + [i] in reached
    ensures ItemAt(listing, root, way + [i]).Some?
    ensures var child := listing[ItemAt(listing, root, way).value.id][i];
            ItemAt(listing, root, way + [i]).value == Item(child.id, child)
    ensures |WaysBelow(reached, way + [i])| < |WaysBelow(reached, way)|
  {
    assert (way + [i])[..|way + [i]| - 1] == way;
    assert Reached(listing, root, way) && Reached(listing, root, way + [i]);
    assert way in WaysBelow(reached, way) && way !in WaysBelow(reached, way + [i]);
    SubsetSize(WaysBelow(reached, way + [i]), WaysBelow(reached, way));
  }

  ghost function TreeAt(listing: Listing, root: Item, reached: set<Way>, way: Way): (tree: ObjectTree)
    requires IsCounted(listing, root, reached) && way in reached
    decreases |WaysBelow(reached, way)|, 1, 0
  {
    assert Reached(listing, root, way);
    ObjectTree(ItemAt(listing, root, way).value.info,
               TreesAt(listing, root, reached, way, ChildCount(listing, root, way)))
  }

  /** The trees of the first `n` children. */
  ghost function TreesAt(listing: Listing, root: Item, reached: set<Way>, way: Way, n: nat): (trees: seq<ObjectTree>)
    requires IsCounted(listing, root, reached) && way in reached && n <= ChildCount(listing, root, way)
    ensures |trees| == n
    decreases |WaysBelow(reached, way)|, 0, n
  {
    if n == 0 then []
    else
      ChildIsReached(listing, root, reached, way, n - 1);
      TreesAt(listing, root, reached, way, n - 1) + [TreeAt(listing, root, reached, way + [n - 1])]
  }

  lemma {:induction false} ItemHasItsId(listing: Listing, root: Item, way: Way)
    requires Reached(listing, root, way) && root.id == root.info.id
    ensures var item := ItemAt(listing, root, way).value; item.id == item.info.id
  {
  }

  lemma {:induction false} ItemIsKnown(infos: map<string, ObjectInfo>, listing: Listing, root: Item, way: Way)
    requires IsConsistent(infos, listing) && Reached(listing, root, way)
    requires root.id in infos && infos[root.id] == root.info
    ensures var item := ItemAt(listing, root, way).value; item.id in infos && infos[item.id] == item.info
  {
  }

  lemma {:induction false} TreeIsDescribed(
    infos: map<string, ObjectInfo>, listing: Listing, root: Item, reached: set<Way>, way: Way)
    requires IsConsistent(infos, listing) && root.id in infos && infos[root.id] == root.info
    requires IsCounted(listing, root, reached) && way in reached
    ensures Describes(TreeAt(listing, root, reached, way), infos, listing)
    decreases |WaysBelow(reached, way)|, 1, 0
  {
    hide IsConsistent, SomeFolderUnlisted, SomeIdRepeats, ItemAt, TreesAt, WaysBelow;
    assert Reached(listing, root, way);
    ItemIsKnown(infos, listing, root, way);
    FolderIsListed(listing, root, way);
    var n := ChildCount(listing, root, way);
    TreesAreDescribed(infos, listing, root, reached, way, n);
    var item := ItemAt(listing, root, way).value;
    ItemIsItself(infos, listing, item);
    if item.info.isFolder {
      assert Infos(TreesAt(listing, root, reached, way, n)) == listing[item.id];
    }
  }

  lemma TreesStep(listing: Listing, root: Item, reached: set<Way>, way: Way, n: nat)
    requires IsCounted(listing, root, reached) && way in reached && 0 < n <= ChildCount(listing, root, way)
    requires way + [n - 1] in reached
    ensures TreesAt(listing, root, reached, way, n) ==
              TreesAt(listing, root, reached, way, n - 1) + [TreeAt(listing, root, reached, way + [n - 1])]
    ensures Reached(listing, root, way + [n - 1])
    ensures TreeAt(listing, root, reached, way + [n - 1]).info == ItemAt(listing, root, way + [n - 1]).value.info
  {
    hide ItemAt;
    assert Reached(listing, root, way + [n - 1]);
  }

  lemma ItemIsItself(infos: map<string, ObjectInfo>, listing: Listing, item: Item)
    requires IsConsistent(infos, listing) && item.id in infos && infos[item.id] == item.info
    ensures item.info.id == item.id
  {
  }

  lemma FolderIsListed(listing: Listing, root: Item, way: Way)
    requires Reached(listing, root, way) && !SomeFolderUnlisted(listing, root)
    ensures var item := ItemAt(listing, root, way).value;
            if item.info.isFolder
            then item.id in listing && ChildCount(listing, root, way) == |listing[item.id]|
            else ChildCount(listing, root, way) == 0
  {
    hide ItemAt;
  }

  lemma {:induction false} TreesAreDescribed(
    infos: map<string, ObjectInfo>, listing: Listing, root: Item, reached: set<Way>, way: Way, n: nat)
    requires IsConsistent(infos, listing) && root.id in infos && infos[root.id] == root.info
    requires IsCounted(listing, root, reached) && way in reached && n <= ChildCount(listing, root, way)
    ensures var trees := TreesAt(listing, root, reached, way, n);
            forall i :: 0 <= i < n ==>
              && Describes(trees[i], infos, listing)
              && trees[i].info == listing[ItemAt(listing, root, way).value.id][i]
    decreases |WaysBelow(reached, way)|, 0, n
  {
    hide IsConsistent, IsCounted, Describes, TreeAt, TreesAt, ItemAt, WaysBelow;
    if n == 0 {
    } else {
      ChildIsReached(listing, root, reached, way, n - 1);
      TreesAreDescribed(infos, listing, root, reached, way, n - 1);
      TreeIsDescribed(infos, listing, root, reached, way + [n - 1]);
      TreesStep(listing, root, reached, way, n);
    }
  }

  /** Every id in the inventory is that of an object further down a way. */
  ghost predicate IdsBelow(inventory: seq<Exported>, listing: Listing, root: Item, ways: set<Way>) {
    forall id :: id in CopiedIds(inventory) ==>
      exists w :: w in ways && Reached(listing, root, w) && ItemAt(listing, root, w).value.id == id
  }

  lemma IdsBelowMore(inventory: seq<Exported>, listing: Listing, root: Item, ways: set<Way>, more: set<Way>)
    requires IdsBelow(inventory, listing, root, ways) && ways <= more
    ensures IdsBelow(inventory, listing, root, more)
  {
    forall id | id in CopiedIds(inventory)
      ensures exists w :: w in more && Reached(listing, root, w) && ItemAt(listing, root, w).value.id == id
    {
      var w :| w in ways && Reached(listing, root, w) && ItemAt(listing, root, w).value.id == id;
      assert w in more;
    }
  }

  lemma UniqueJoin(
    a: seq<Exported>, b: seq<Exported>, listing: Listing, root: Item, waysA: set<Way>, waysB: set<Way>)
    requires !SomeIdRepeats(listing, root) && waysA !! waysB && UniqueIds(a) && UniqueIds(b)
    requires IdsBelow(a, listing, root, waysA) && IdsBelow(b, listing, root, waysB)
    ensures UniqueIds(a + b) && IdsBelow(a + b, listing, root, waysA + waysB)
  {
    CopiedJoin(a, b);
    IdsBelowMore(a, listing, root, waysA, waysA + waysB);
    IdsBelowMore(b, listing, root, waysB, waysA + waysB);
    forall i, j | 0 <= i < |a| && 0 <= j < |b| ensures a[i].id != b[j].id {
      assert a[i].id in CopiedIds(a) && b[j].id in CopiedIds(b);
      var v :| v in waysA && Reached(listing, root, v) && ItemAt(listing, root, v).value.id == a[i].id;
      var w :| w in waysB && Reached(listing, root, w) && ItemAt(listing, root, w).value.id == b[j].id;
      assert v != w;
    }
  }

  ghost function WaysBelowFirst(reached: set<Way>, way: Way, n: nat): (below: set<Way>)
    ensures forall w :: w in below <==> w in reached && way < w && w[|way|] < n
  {
    set w | w in reached && way < w && w[|way|] < n
  }

  lemma {:induction false} TreeHasUniqueIds(listing: Listing, root: Item, reached: set<Way>, way: Way)
    requires IsCounted(listing, root, reached) && way in reached && root.id == root.info.id
    ensures var inventory := Postorder(TreeAt(listing, root, reached, way));
            UniqueIds(inventory) && IdsBelow(inventory, listing, root, WaysBelow(reached, way))
    decreases |WaysBelow(reached, way)|, 1, 0
  {
    assert Reached(listing, root, way);
    ItemHasItsId(listing, root, way);
    var n := ChildCount(listing, root, way);
    TreesHaveUniqueIds(listing, root, reached, way, n);
    var tree := TreeAt(listing, root, reached, way);
    var own := [EntryOf(tree.info)];
    assert IdsBelow(own, listing, root, {way});
    UniqueJoin(PostorderAll(tree.children), own, listing, root, WaysBelowFirst(reached, way, n), {way});
    IdsBelowMore(PostorderAll(tree.children) + own, listing, root, WaysBelowFirst(reached, way, n) + {way},
                 WaysBelow(reached, way));
  }

  lemma {:induction false} TreesHaveUniqueIds(listing: Listing, root: Item, reached: set<Way>, way: Way, n: nat)
    requires IsCounted(listing, root, reached) && way in reached && root.id == root.info.id
    requires n <= ChildCount(listing, root, way)
    ensures var inventory := PostorderAll(TreesAt(listing, root, reached, way, n));
            UniqueIds(inventory) && IdsBelow(inventory, listing, root, WaysBelowFirst(reached, way, n))
    decreases |WaysBelow(reached, way)|, 0, n
  {
    hide *;
    if n == 0 {
      NoTrees(listing, root, reached, way);
    } else {
      var i := n - 1;
      ChildIsReached(listing, root, reached, way, i);
      TreesHaveUniqueIds(listing, root, reached, way, i);
      TreeHasUniqueIds(listing, root, reached, way + [i]);
      LastTree(listing, root, reached, way, n);
      WaysSplit(reached, way, i);
      CountedHasNoRepeat(listing, root, reached);
      var a := PostorderAll(TreesAt(listing, root, reached, way, i));
      var b := Postorder(TreeAt(listing, root, reached, way + [i]));
      UniqueJoin(a, b, listing, root, WaysBelowFirst(reached, way, i), WaysBelow(reached, way + [i]));
    }
  }

  lemma CountedHasNoRepeat(listing: Listing, root: Item, reached: set<Way>)
    requires IsCounted(listing, root, reached)
    ensures !SomeIdRepeats(listing, root)
  {
  }

  lemma NoTrees(listing: Listing, root: Item, reached: set<Way>, way: Way)
    requires IsCounted(listing, root, reached) && way in reached
    ensures var inventory := PostorderAll(TreesAt(listing, root, reached, way, 0));
            UniqueIds(inventory) && IdsBelow(inventory, listing, root, WaysBelowFirst(reached, way, 0))
  {
  }

  lemma LastTree(listing: Listing, root: Item, reached: set<Way>, way: Way, n: nat)
    requires IsCounted(listing, root, reached) && way in reached && 0 < n <= ChildCount(listing, root, way)
    requires way + [n - 1] in reached
    ensures PostorderAll(TreesAt(listing, root, reached, way, n)) ==
              PostorderAll(TreesAt(listing, root, reached, way, n - 1))
              + Postorder(TreeAt(listing, root, reached, way + [n - 1]))
  {
    hide IsCounted, TreeAt, Postorder, TreesAt;
    TreesStep(listing, root, reached, way, n);
    var trees := TreesAt(listing, root, reached, way, n);
    assert trees[..n - 1] == TreesAt(listing, root, reached, way, n - 1);
  }

  lemma WaysSplit(reached: set<Way>, way: Way, i: nat)
    ensures WaysBelowFirst(reached, way, i + 1) == WaysBelowFirst(reached, way, i) + WaysBelow(reached, way + [i])
    ensures WaysBelowFirst(reached, way, i) !! WaysBelow(reached, way + [i])
  {
    forall w | w in WaysBelow(reached, way + [i]) ensures way < w && w[|way|] == i {
      assert w[|way|] == (way + [i])[|way|];
    }
    forall w | w in WaysBelowFirst(reached, way, i + 1) && w[|way|] == i ensures w in WaysBelow(reached, way + [i]) {
      assert w[..|way| + 1] == way + [i];
    }
  }

  ghost predicate IsBelow(listing: Listing, root: Item, id: string) {
    exists w :: Reached(listing, root, w) && ItemAt(listing, root, w).value.id == id
  }

  /** Every file below has a known size, and nothing there is called like a root. */
  ghost predicate MayGo(infos: map<string, ObjectInfo>, listing: Listing, id: string)
    requires id in infos
  {
    forall o :: IsBelow(listing, Item(id, infos[id]), o) && o in infos ==>
      !NamesRoot(o) && (infos[o].isFolder || infos[o].size.Some?)
  }

  /** Exactly the object and what lies below it are gone. */
  ghost predicate LosesBelow(
    infos: map<string, ObjectInfo>, listing: Listing, id: string, after: map<string, ObjectInfo>)
    requires id in infos
  {
    forall o :: o in after <==> o in infos && !IsBelow(listing, Item(id, infos[id]), o)
  }

  lemma {:induction false} ReachedIsCopied(
    infos: map<string, ObjectInfo>, listing: Listing, root: Item, inventory: seq<Exported>, way: Way)
    requires IsConsistent(infos, listing) && root.id in infos && infos[root.id] == root.info
    requires AllInOrder(inventory, infos, listing) && root.id in CopiedIds(inventory)
    requires Reached(listing, root, way)
    ensures ItemAt(listing, root, way).value.id in CopiedIds(inventory)
    decreases |way|
  {
    if way == [] {
    } else {
      var up := way[..|way| - 1];
      assert Reached(listing, root, up);
      ReachedIsCopied(infos, listing, root, inventory, up);
      ItemIsKnown(infos, listing, root, up);
      var folder := ItemAt(listing, root, up).value.id;
      var i :| 0 <= i < |inventory| && inventory[i].id == folder;
      assert EntryInOrder(inventory, infos, listing, i);
      CopiedGrow(inventory, i);
      assert Ids(listing[folder])[way[|way| - 1]] in Ids(listing[folder]);
    }
  }

  /** The inventory holds exactly what lies below the root, and can be removed exactly
      if every file there has a known size and nothing is called like a root. */
  lemma InventoryIsBelow(
    infos: map<string, ObjectInfo>, listing: Listing, root: Item, inventory: seq<Exported>, ways: set<Way>)
    requires IsConsistent(infos, listing) && root.id in infos && infos[root.id] == root.info
    requires root == Item(root.id, infos[root.id])
    requires AllInOrder(inventory, infos, listing) && root.id in CopiedIds(inventory)
    requires IdsBelow(inventory, listing, root, ways)
    ensures forall id :: id in CopiedIds(inventory) <==> IsBelow(listing, root, id)
    ensures CanBeVerified(inventory) <==> MayGo(infos, listing, root.id)
    ensures LosesBelow(infos, listing, root.id, infos - CopiedIds(inventory))
  {
    hide NamesRoot, IsDeviceRoot, ItemAt, IsConsistent;
    forall id ensures id in CopiedIds(inventory) <==> IsBelow(listing, root, id) {
      if IsBelow(listing, root, id) {
        var w :| Reached(listing, root, w) && ItemAt(listing, root, w).value.id == id;
        ReachedIsCopied(infos, listing, root, inventory, w);
      }
    }
    RootsAreNamed(inventory);
    forall i | 0 <= i < |inventory|
      ensures inventory[i].id in infos && inventory[i] == EntryOf(infos[inventory[i].id])
              && IsBelow(listing, root, inventory[i].id)
    {
      assert EntryInOrder(inventory, infos, listing, i);
      assert inventory[i].id in CopiedIds(inventory);
    }
  }

  /** A count that came to an end has found a finite tree in which no id repeats. */
  lemma CountedIsTree(
    infos: map<string, ObjectInfo>, listing: Listing, root: Item, reached: set<Way>) returns (tree: ObjectTree)
    requires IsConsistent(infos, listing) && root.id in infos && infos[root.id] == root.info
    requires IsCounted(listing, root, reached)
    ensures tree.info == root.info && Describes(tree, infos, listing) && UniqueIds(Postorder(tree))
    ensures IdsBelow(Postorder(tree), listing, root, reached)
  {
    assert Reached(listing, root, []);
    tree := TreeAt(listing, root, reached, []);
    TreeIsDescribed(infos, listing, root, reached, []);
    TreeHasUniqueIds(listing, root, reached, []);
  }

  /** Counting, export and removal fit together: a steady device whose objects can
      be counted loses exactly the subtree, and nothing else, and without faults
      it does so if and only if every file has a known size and no device root
      is among them. */
  method MoveOffDevice(id: string, device: PortableDevice, control: Control)
    returns (counted: Totals, exported: ExportResult, removed: RemovalResult, ghost tree: ObjectTree)
    requires device.steady && IsConsistent(device.infos, device.listing) && id in device.infos
    modifies device, control
    ensures old(device.log) <= device.log
    ensures counted.Repeated? ==> SomeIdRepeats(old(device.listing), Item(id, old(device.infos)[id]))
    ensures counted.Unlisted? ==> SomeFolderUnlisted(old(device.listing), Item(id, old(device.infos)[id]))
    ensures counted.Counted? ==>
              && tree.info == old(device.infos)[id] && Describes(tree, old(device.infos), old(device.listing))
              && UniqueIds(Postorder(tree))
    ensures !(counted.Counted? && exported.Complete?) ==>
              device.infos == old(device.infos) && device.listing == old(device.listing)
              && device.log == old(device.log)
    ensures counted.Counted? && exported.Complete? ==>
              && RemovedIds(device.log[|old(device.log)|..]) <= IdsOf(Postorder(tree))
              && (device.faults == old(device.faults) && !control.raised ==>
                    (removed.AllRemoved? <==> CanBeVerified(Postorder(tree))))
    ensures counted.Counted? && exported.Complete? && removed.AllRemoved? ==>
              && device.infos == old(device.infos) - CopiedIds(Postorder(tree))
              && device.listing == Pruned(old(device.listing), CopiedIds(Postorder(tree)))
              && RemovedIds(device.log[|old(device.log)|..]) == IdsOf(Postorder(tree))
              && LosesBelow(old(device.infos), old(device.listing), id, device.infos)
    ensures counted.Cancelled? ==> control.raised
    ensures counted.Counted? && device.faults == old(device.faults) && !control.raised ==>
              exported.Complete? && (removed.AllRemoved? <==> MayGo(old(device.infos), old(device.listing), id))
  {
    hide *;
    removed, exported := SourceChanged, ExportFault;
    var info := device.infos[id];
    ghost var infos, listing := device.infos, device.listing;
    tree := ObjectTree(info, []);
    ghost var listed, reached;
    counted, listed, reached := CollectObjectTotals(id, info, device.listing, control);
    if !counted.Counted? {
      return;
    }
    CountedMeans(listing, Item(id, info), reached);
    InfoHasItsId(infos, listing, id);
    tree := CountedIsTree(infos, listing, Item(id, info), reached);
    TreeCanBeMoved(infos, listing, id, tree, reached);
    var inventory, completed;
    exported, inventory, completed := ExportObject(id, device, control, [], tree);
    if !exported.Complete? {
      return;
    }
    assert [] + Postorder(tree) == Postorder(tree);
    removed := RemoveExportInventory(inventory, device, control);
  }

  /** What the removal may count on. */
  lemma TreeCanBeMoved(
    infos: map<string, ObjectInfo>, listing: Listing, id: string, tree: ObjectTree, reached: set<Way>)
    requires IsConsistent(infos, listing) && id in infos && tree.info == infos[id] && Describes(tree, infos, listing)
    requires UniqueIds(Postorder(tree)) && IdsBelow(Postorder(tree), listing, Item(id, infos[id]), reached)
    ensures IsPostorder(Postorder(tree), infos, listing)
    ensures CanBeVerified(Postorder(tree)) <==> MayGo(infos, listing, id)
    ensures LosesBelow(infos, listing, id, infos - CopiedIds(Postorder(tree)))
  {
    hide *;
    InfoHasItsId(infos, listing, id);
    PostorderIsOrdered(tree, infos, listing);
    RootIsCopied(tree);
    InventoryIsBelow(infos, listing, Item(id, infos[id]), Postorder(tree), reached);
    InventoryIsPostorder(Postorder(tree), infos, listing);
  }

  lemma RootIsCopied(tree: ObjectTree)
    ensures tree.info.id in CopiedIds(Postorder(tree))
  {
    var inventory := Postorder(tree);
    assert inventory[|inventory| - 1].id == tree.info.id;
  }

  lemma CountedMeans(listing: Listing, root: Item, reached: set<Way>)
    requires !SomeIdRepeats(listing, root) && !SomeFolderUnlisted(listing, root)
    requires forall w :: w in reached <==> Reached(listing, root, w)
    ensures IsCounted(listing, root, reached)
  {
  }

  lemma InfoHasItsId(infos: map<string, ObjectInfo>, listing: Listing, id: string)
    requires IsConsistent(infos, listing) && id in infos
    ensures infos[id].id == id
  {
  }

  lemma InventoryIsPostorder(inventory: seq<Exported>, infos: map<string, ObjectInfo>, listing: Listing)
    requires AllInOrder(inventory, infos, listing) && UniqueIds(inventory)
    ensures IsPostorder(inventory, infos, listing)
  {
  }
}

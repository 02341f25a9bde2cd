/** What a stem loses before copies are compared (`src/fs/duplicates.rs`,
    `copy_family_stem`): one copy marker and one counter, and nothing else. */
module DuplicateFamilies {
  import opened Prelude
  import opened Texts
  import opened TempNames
  import opened Orderings
  import opened DuplicateNames
  import opened DuplicateGroups

  predicate IsGap(gap: string) {
    forall c :: c in gap ==> IsWhitespace(c)
  }

  predicate IsTrimmed(s: string) {
    s != [] && !IsWhitespace(s[0]) && !IsWhitespace(s[|s| - 1])
  }

  predicate EndsWith(s: string, end: string) {
    |end| <= |s| && s[|s| - |end|..] == end
  }

  // ----- Trimming -----

  lemma {:induction false} TrimEndDropsGap(s: string, gap: string)
    requires IsGap(gap)
    ensures TrimEnd(s + gap) == TrimEnd(s)
  {
    if gap == [] {
      assert s + gap == s;
    } else {
      var front := gap[..|gap| - 1];
      assert gap[|gap| - 1] in gap && (s + gap)[..|s + gap| - 1] == s + front;
      TrimEndDropsGap(s, front);
    }
  }

  lemma {:induction false} TrimStartDropsGap(gap: string, s: string)
    requires IsGap(gap)
    ensures TrimStart(gap + s) == TrimStart(s)
  {
    if gap == [] {
      assert gap + s == s;
    } else {
      assert gap[0] in gap && (gap + s)[1..] == gap[1..] + s;
      TrimStartDropsGap(gap[1..], s);
    }
  }

  /** Exactly the white space at the two ends goes. */
  lemma TrimMeans(before: string, s: string, after: string)
    requires IsGap(before) && IsGap(after) && IsTrimmed(s)
    ensures Trim(before + s + after) == s
  {
    assert before + s + after == before + (s + after);
    TrimStartDropsGap(before, s + after);
    assert s + after != [] && (s + after)[0] == s[0];
    assert TrimStart(s + after) == s + after;
    TrimEndDropsGap(s, after);
  }

  lemma TrimmedStays(s: string)
    requires IsTrimmed(s)
    ensures Trim(s) == s && TrimEnd(s) == s
  {
    TrimMeans([], s, []);
    assert [] + s + [] == s;
  }

  // ----- Counters -----

  predicate AreDigits(digits: string) {
    digits != [] && forall i :: 0 <= i < |digits| ==> '0' <= digits[i] <= '9'
  }

  /** A number in round brackets that is not zero and fits 64 bits; leading zeros are allowed. */
  predicate IsCounter(counter: string) {
    && |counter| > 2 && counter[0] == '(' && counter[|counter| - 1] == ')'
    && AreDigits(counter[1..|counter| - 1])
    && 0 < NumberOf(counter[1..|counter| - 1]) < 0x1_0000_0000_0000_0000
  }

  ghost predicate EndsInCounter(s: string) {
    exists k :: 0 <= k < |s| && IsCounter(s[k..])
  }

  lemma {:induction false} NumberOfDecimal(n: nat)
    ensures AreDigits(Decimal(n)) && NumberOf(Decimal(n)) == n
  {
    var text := Decimal(n);
    assert forall i :: 0 <= i < |text| ==> text[i] in text;
    if n < 10 {
      assert text[..0] == [];
    } else {
      NumberOfDecimal(n / 10);
      assert text[..|text| - 1] == Decimal(n / 10);
    }
  }

  /** What Explorer appends is a counter. */
  lemma DecimalIsCounter(n: nat)
    requires 0 < n < 0x1_0000_0000_0000_0000
    ensures IsCounter("(" + Decimal(n) + ")")
  {
    NumberOfDecimal(n);
    var counter := "(" + Decimal(n) + ")";
    assert counter[1..|counter| - 1] == Decimal(n);
  }

  lemma {:induction false} LastIndexMeans(a: string, c: char, b: string)
    requires c !in b
    ensures LastIndexOf(a + [c] + b, c) == Some(|a|)
  {
    if b == [] {
      assert a + [c] + b == a + [c];
    } else {
      var front := b[..|b| - 1];
      assert (a + [c] + b)[..|a + [c] + b| - 1] == a + [c] + front;
      assert b[|b| - 1] in b;
      LastIndexMeans(a, c, front);
    }
  }

  lemma CounterGoes(s: string, counter: string)
    requires IsCounter(counter)
    ensures StripCopyCounter(s + counter) == Some(TrimEnd(s))
  {
    var digits := counter[1..|counter| - 1];
    var body := s + ['('] + digits;
    assert counter == ['('] + digits + [')'];
    assert s + counter == body + ")";
    assert !IsWhitespace((s + counter)[|s + counter| - 1]);
    assert StripSuffix(s + counter, ")") == Some(body) by {
      assert (body + ")")[..|body|] == body && (body + ")")[|body|..] == ")";
    }
    assert '(' !in digits;
    LastIndexMeans(s, '(', digits);
    assert body[|s| + 1..] == digits && body[..|s|] == s;
    assert forall i :: 0 <= i < |digits| ==> IsDigit(digits[i]);
  }

  lemma CounterWasThere(s: string)
    requires IsTrimmed(s) && StripCopyCounter(s).Some?
    ensures EndsInCounter(s)
  {
    TrimmedStays(s);
    var body := StripSuffix(s, ")").value;
    var open := LastIndexOf(body, '(').value;
    var counter := s[open..];
    assert counter[1..|counter| - 1] == body[open + 1..];
    assert IsCounter(counter);
  }

  lemma NoCounterGoes(s: string)
    requires IsTrimmed(s) && !EndsInCounter(s)
    ensures StripCopyCounter(s) == None
  {
    if StripCopyCounter(s).Some? {
      CounterWasThere(s);
    }
  }

  // ----- Markers -----

  /** Two of the markers end like longer ones. */
  ghost predicate IsMarker(marker: string) {
    marker in {" - copia", "-copia", " copia", " - copy", "-copy", " copy"}
  }

  ghost predicate EndsInMarker(s: string) {
    exists marker :: IsMarker(marker) && EndsWith(s, marker)
  }

  /** `base` followed by `marker` does not read as a longer marker. */
  predicate MarkerFits(base: string, marker: string) {
    marker in {" copia", " copy"} ==> !EndsWith(base, " -")
  }

  lemma SuffixOfJoin(s: string, marker: string, other: string)
    requires |other| <= |marker|
    ensures EndsWith(s + marker, other) <==> EndsWith(marker, other)
  {
    var whole := s + marker;
    assert whole[|whole| - |other|..] == marker[|marker| - |other|..];
  }

  lemma LongerSuffix(s: string, marker: string, other: string)
    requires |marker| < |other|
    ensures EndsWith(s + marker, other) <==>
              EndsWith(s, other[..|other| - |marker|]) && other[|other| - |marker|..] == marker
  {
    var whole, extra := s + marker, |other| - |marker|;
    if EndsWith(whole, other) {
      assert other[extra..] == whole[|s|..] == marker;
      assert other[..extra] == whole[|s| - extra..|s|] == s[|s| - extra..];
    }
    if EndsWith(s, other[..extra]) && other[extra..] == marker {
      assert other == other[..extra] + other[extra..];
      assert whole[|whole| - |other|..] == s[|s| - extra..] + marker;
    }
  }

  lemma {:induction false} FirstMarkerGoes(name: string, markers: seq<string>, i: nat)
    requires i < |markers| && EndsWith(name, markers[i])
    requires forall j :: 0 <= j < i ==> !EndsWith(name, markers[j])
    ensures StripCopyMarker(name, markers) == Some(TrimEnd(name[..|name| - |markers[i]|]))
  {
    if i > 0 {
      assert !EndsWith(name, markers[0]);
      FirstMarkerGoes(name, markers[1..], i - 1);
    }
  }

  lemma {:induction false} NoMarkerGoes(name: string, markers: seq<string>)
    requires forall marker :: marker in markers ==> !EndsWith(name, marker)
    ensures StripCopyMarker(name, markers) == None
  {
    if markers != [] {
      assert markers[0] in markers;
      NoMarkerGoes(name, markers[1..]);
    }
  }

  /** No other marker is found first. */
  lemma EarlierMarkers(s: string, i: nat)
    requires i < |COPY_MARKERS| && MarkerFits(s, COPY_MARKERS[i])
    ensures forall j :: 0 <= j < i ==> !EndsWith(s + COPY_MARKERS[i], COPY_MARKERS[j])
  {
    var marker := COPY_MARKERS[i];
    forall j | 0 <= j < i ensures !EndsWith(s + marker, COPY_MARKERS[j]) {
      var other := COPY_MARKERS[j];
      if |other| <= |marker| {
        SuffixOfJoin(s, marker, other);
      } else {
        LongerSuffix(s, marker, other);
      }
    }
  }

  lemma MarkerIndex(marker: string) returns (i: nat)
    requires IsMarker(marker)
    ensures i < |COPY_MARKERS| && COPY_MARKERS[i] == marker
  {
    i := match marker[|marker| - 1]
         case 'a' => if marker[0] == '-' then 1 else if marker[1] == '-' then 0 else 2
         case _ => if marker[0] == '-' then 4 else if marker[1] == '-' then 3 else 5;
  }

  lemma MarkerGoes(s: string, marker: string)
    requires IsMarker(marker) && MarkerFits(s, marker)
    ensures StripCopyMarker(s + marker, COPY_MARKERS) == Some(TrimEnd(s))
  {
    var i := MarkerIndex(marker);
    EarlierMarkers(s, i);
    SuffixOfJoin(s, marker, marker);
    FirstMarkerGoes(s + marker, COPY_MARKERS, i);
    assert (s + marker)[..|s|] == s;
  }

  // ----- Families -----

  /** What a copy has around the stem it was made from. */
  datatype Copy = Copy(before: string, gap: string, marker: string, space: string, counter: string, after: string)

  function Named(s: string, copy: Copy): string {
    copy.before + s + copy.gap + copy.marker + copy.space + copy.counter + copy.after
  }

  /** White space may stand anywhere; the marker and the counter may be missing, but
      then `s` must not end in one itself. */
  ghost predicate IsCopyTail(s: string, copy: Copy) {
    && IsGap(copy.before) && IsGap(copy.gap) && IsGap(copy.space) && IsGap(copy.after)
    && (copy.marker == [] || IsMarker(copy.marker)) && (copy.counter == [] || IsCounter(copy.counter))
    && (copy.gap == [] ==> MarkerFits(s, copy.marker))
    && (copy.marker == [] ==> !EndsInMarker(s) && (copy.counter == [] ==> !EndsInCounter(s)))
  }

  ghost predicate IsCopyOf(stem: string, s: string) {
    IsTrimmed(s) && exists copy :: IsCopyTail(s, copy) && stem == Named(s, copy)
  }

  ghost function Stripped(original: string): string {
    var counted := StripCopyCounter(original);
    var withoutCounter := if counted.Some? then counted.value else original;
    var marked := StripCopyMarker(withoutCounter, COPY_MARKERS);
    if marked.Some? then marked.value else withoutCounter
  }

  lemma GapsJoin(a: string, b: string)
    requires IsGap(a) && IsGap(b)
    ensures IsGap(a + b)
  {
  }

  lemma MarkerFitsAfterGap(s: string, gap: string, marker: string)
    requires IsGap(gap) && (gap == [] ==> MarkerFits(s, marker))
    ensures MarkerFits(s + gap, marker)
  {
    if gap == [] {
      assert s + gap == s;
    } else {
      var whole := s + gap;
      var last := whole[|whole| - 1];
      assert last == gap[|gap| - 1] && last in gap && IsWhitespace(last);
      assert |whole| >= 2 ==> whole[|whole| - 2..][1] == last;
    }
  }

  /** Once the counter is gone. */
  lemma MarkerOfCopy(s: string, gap: string, marker: string)
    requires IsTrimmed(s) && IsGap(gap) && (marker == [] || IsMarker(marker))
    requires marker == [] ==> gap == [] && !EndsInMarker(s)
    requires gap == [] ==> MarkerFits(s, marker)
    ensures var marked := StripCopyMarker(s + gap + marker, COPY_MARKERS);
            (if marked.Some? then marked.value else s + gap + marker) == s
  {
    TrimmedStays(s);
    if marker == [] {
      assert s + gap + marker == s;
      forall other | other in COPY_MARKERS ensures !EndsWith(s, other) {
        assert IsMarker(other);
      }
      NoMarkerGoes(s, COPY_MARKERS);
    } else {
      MarkerFitsAfterGap(s, gap, marker);
      MarkerGoes(s + gap, marker);
      TrimEndDropsGap(s, gap);
    }
  }

  lemma CounterOfCopy(s: string, gap: string, marker: string, space: string, counter: string)
    requires IsTrimmed(s) && IsGap(gap) && IsGap(space) && (marker == [] || IsMarker(marker)) && IsCounter(counter)
    ensures IsTrimmed(s + gap + marker + space + counter)
    ensures var front := if marker == [] then s else s + gap + marker;
            StripCopyCounter(s + gap + marker + space + counter) == Some(front)
  {
    var front := s + gap + marker;
    var whole := front + space + counter;
    assert whole[|whole| - 1] == ')' && whole[0] == s[0];
    CounterGoes(front + space, counter);
    TrimEndDropsGap(front, space);
    if marker == [] {
      assert front == s + gap;
      TrimEndDropsGap(s, gap);
      TrimmedStays(s);
    } else {
      assert front == (s + gap) + marker && front[|front| - 1] == marker[|marker| - 1] && front[0] == s[0];
      LastOfMarker(marker);
      TrimmedStays(front);
    }
  }

  lemma LastOfMarker(marker: string)
    requires IsMarker(marker)
    ensures !IsWhitespace(marker[|marker| - 1])
  {
    var i := MarkerIndex(marker);
  }

  /** Around one marker and one counter nothing but `s` is left. */
  lemma CopyStripped(s: string, copy: Copy)
    requires IsTrimmed(s) && IsCopyTail(s, copy)
    ensures Stripped(Trim(Named(s, copy))) == s
  {
    hide StripCopyCounter, StripCopyMarker, Trim, TrimEnd, IsMarker, IsCounter, IsTrimmed, EndsInCounter, EndsInMarker,
      MarkerFits, Named;
    var Copy(before, gap, marker, space, counter, after) := copy;
    if counter != [] {
      CounterOfCopy(s, gap, marker, space, counter);
      FrontOfCopy(s, gap, marker);
      TrimMeans(before, s + gap + marker + space + counter, after);
      NamedWhole(s, copy);
    } else if marker != [] {
      MarkerFollowsText(s, gap, marker);
      MarkerOfCopy(s, gap, marker);
      GapsJoin(space, after);
      TrimMeans(before, s + gap + marker, space + after);
      NamedWithoutCounter(s, copy);
    } else {
      NoCounterGoes(s);
      MarkerOfCopy(s, [], []);
      GapsJoin(gap, space);
      GapsJoin(gap + space, after);
      TrimMeans(before, s, gap + space + after);
      NamedWithoutTail(s, copy);
    }
  }

  lemma NamedWhole(s: string, copy: Copy)
    ensures Named(s, copy) == copy.before + (s + copy.gap + copy.marker + copy.space + copy.counter) + copy.after
  {
  }

  lemma NamedWithoutCounter(s: string, copy: Copy)
    requires copy.counter == []
    ensures Named(s, copy) == copy.before + (s + copy.gap + copy.marker) + (copy.space + copy.after)
  {
  }

  lemma NamedWithoutTail(s: string, copy: Copy)
    requires copy.counter == [] && copy.marker == []
    ensures Named(s, copy) == copy.before + s + (copy.gap + copy.space + copy.after) && s + [] + [] == s
  {
  }

  lemma MarkerFollowsText(s: string, gap: string, marker: string)
    requires IsMarker(marker) && IsTrimmed(s)
    ensures IsTrimmed(s + gap + marker) && StripCopyCounter(s + gap + marker) == None
  {
    LastOfMarker(marker);
    var whole := s + gap + marker;
    assert whole[|whole| - 1] == marker[|marker| - 1] && whole[0] == s[0];
    TrimmedStays(whole);
    var i := MarkerIndex(marker);
    assert whole[|whole| - 1..] == [marker[|marker| - 1]];
  }

  lemma FrontOfCopy(s: string, gap: string, marker: string)
    requires IsTrimmed(s) && IsGap(gap) && (marker == [] || IsMarker(marker)) && (marker == [] ==> !EndsInMarker(s))
    requires gap == [] ==> MarkerFits(s, marker)
    ensures var front := if marker == [] then s else s + gap + marker;
            var marked := StripCopyMarker(front, COPY_MARKERS);
            (if marked.Some? then marked.value else front) == s
  {
    hide StripCopyMarker;
    if marker == [] {
      MarkerOfCopy(s, [], []);
      assert s + [] + [] == s;
    } else {
      MarkerOfCopy(s, gap, marker);
    }
  }

  /** Exactly one marker and one counter go, as long as three characters are left. */
  lemma FamilyOfCopy(s: string, copy: Copy)
    requires IsTrimmed(s) && IsCopyTail(s, copy)
    ensures CopyFamilyStem(Named(s, copy)) == if |s| >= 3 then s else Trim(Named(s, copy))
  {
    hide StripCopyCounter, StripCopyMarker, Trim, IsCopyTail;
    CopyStripped(s, copy);
  }

  /** The names that Explorer and browsers give. */
  lemma UsualNames(s: string, marker: string, n: nat)
    requires IsTrimmed(s) && |s| >= 3 && !EndsInCounter(s) && !EndsInMarker(s)
    requires IsMarker(marker) && 0 < n < 0x1_0000_0000_0000_0000
    ensures CopyFamilyStem(s) == s
    ensures CopyFamilyStem(s + " (" + Decimal(n) + ")") == s
    ensures MarkerFits(s, marker) ==> CopyFamilyStem(s + marker) == s
    ensures MarkerFits(s, marker) ==> CopyFamilyStem(s + marker + " (" + Decimal(n) + ")") == s
  {
    hide CopyFamilyStem, EndsInCounter, EndsInMarker, IsMarker, IsCounter, IsTrimmed, Trim;
    DecimalIsCounter(n);
    var counter := "(" + Decimal(n) + ")";
    FamilyOfCopy(s, Copy([], [], [], [], [], []));
    assert Named(s, Copy([], [], [], [], [], [])) == s;
    FamilyOfCopy(s, Copy([], [], [], " ", counter, []));
    assert Named(s, Copy([], [], [], " ", counter, [])) == s + " (" + Decimal(n) + ")";
    if MarkerFits(s, marker) {
      FamilyOfCopy(s, Copy([], [], marker, [], [], []));
      assert Named(s, Copy([], [], marker, [], [], [])) == s + marker;
      FamilyOfCopy(s, Copy([], [], marker, " ", counter, []));
      assert Named(s, Copy([], [], marker, " ", counter, [])) == s + marker + " (" + Decimal(n) + ")";
    }
  }

  /** A marker is taken off to the last character exactly if it does not read as a
      longer one: "x -" and " copy" come out as "x". */
  lemma MarkerGoesIff(s: string, marker: string)
    requires IsTrimmed(s) && |s| >= 3 && IsMarker(marker)
    ensures CopyFamilyStem(s + marker) == s <==> MarkerFits(s, marker)
  {
    hide *;
    if MarkerFits(s, marker) {
      FittingMarkerGoes(s, marker);
    } else {
      LongerMarkerGoes(s, marker);
    }
  }

  lemma FittingMarkerGoes(s: string, marker: string)
    requires IsTrimmed(s) && |s| >= 3 && IsMarker(marker) && MarkerFits(s, marker)
    ensures CopyFamilyStem(s + marker) == s
  {
    hide CopyFamilyStem, IsTrimmed, IsMarker, MarkerFits, EndsInMarker, EndsInCounter;
    var copy := Copy([], [], marker, [], [], []);
    MarkerIndexed(marker);
    FamilyOfCopy(s, copy);
    assert Named(s, copy) == s + marker;
  }

  lemma MarkerIndexed(marker: string)
    requires IsMarker(marker)
    ensures marker != []
  {
  }

  lemma LongerMarkerGoes(s: string, marker: string)
    requires IsTrimmed(s) && |s| >= 3 && IsMarker(marker) && !MarkerFits(s, marker)
    ensures CopyFamilyStem(s + marker) != s
  {
    hide StripCopyCounter, StripCopyMarker, IsTrimmed, MarkerFits, IsMarker, Trim, TrimEnd;
    var front, longer := SplitAtDash(s, marker);
    MarkerFollowsText(s, [], marker);
    assert s + [] + marker == s + marker;
    TrimmedStays(s + marker);
    MarkerGoes(front, longer);
    assert Stripped(s + marker) == TrimEnd(front);
  }

  lemma SplitAtDash(s: string, marker: string) returns (front: string, longer: string)
    requires IsMarker(marker) && !MarkerFits(s, marker)
    ensures s + marker == front + longer && |front| < |s| < |s + marker|
    ensures IsMarker(longer) && MarkerFits(front, longer)
  {
    longer := if marker == " copy" then " - copy" else " - copia";
    front := s[..|s| - 2];
    assert s == front + " -" && s + marker == front + longer;
  }

  /** All copies of one stem are one family. */
  lemma CopiesAreConnected(files: seq<ScannedFile>, a: nat, b: nat, s: string)
    requires a < |files| && b < |files| && files[a].extension == files[b].extension && |s| >= 3
    requires IsCopyOf(files[a].stem, s) && IsCopyOf(files[b].stem, s)
    ensures SameFamily(files[a], files[b]) && Connected(files, a, b)
  {
    hide CopyFamilyStem, IsCopyTail, Connected, SameKey, SameBase;
    var one :| IsCopyTail(s, one) && files[a].stem == Named(s, one);
    var other :| IsCopyTail(s, other) && files[b].stem == Named(s, other);
    FamilyOfCopy(s, one);
    FamilyOfCopy(s, other);
    LinkedAreConnected(files, a, b);
  }

  /** So two copies are both listed, and not both as the original. */
  lemma CopiesAreListed(files: seq<ScannedFile>, entries: seq<Entry>, a: nat, b: nat, s: string)
    requires NameGroups(files, entries) && DistinctPaths(files)
    requires a < |files| && b < |files| && a != b && files[a].extension == files[b].extension && |s| >= 3
    requires IsCopyOf(files[a].stem, s) && IsCopyOf(files[b].stem, s)
    ensures Listed(entries, a) && Listed(entries, b)
    ensures forall x, y :: 0 <= x < |entries| && 0 <= y < |entries|
                           && entries[x].index == a && entries[y].index == b ==>
              !(entries[x].kind.Original? && entries[y].kind.Original?)
  {
    hide IsCopyOf, Connected, AgeAtMost, SameFamily;
    CopiesAreConnected(files, a, b, s);
    CopiesAreConnected(files, b, a, s);
    AgeIsTotal(files[a], files[b]);
  }
}

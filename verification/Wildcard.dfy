/** The file-name wildcard matcher of `src/fs/search.rs`: a single loop that
    remembers only the latest `*`.

    The loop tests "equal characters" before it tests for a star, so a `*` of
    the pattern that meets a literal `*` of the text is consumed as an ordinary
    character. `LoopMatch` is the relation that order of tests decides, `Glob`
    the documented meaning of a wildcard; the two are compared below. */
module Wildcard {
  import opened Prelude

  /** The documented relation: `*` is any sequence, `?` any one character. */
  ghost predicate Glob(pattern: seq<char>, text: seq<char>)
    decreases |pattern|
  {
    if pattern == [] then text == []
    else if pattern[0] == '*' then
      exists k :: 0 <= k <= |text| && Glob(pattern[1..], text[k..])
    else
      text != [] && Accepts(pattern[0], text[0]) && Glob(pattern[1..], text[1..])
  }

  /** What the branch order of the loop amounts to: a star in front of a literal
      `*` stands for exactly that character. */
  ghost predicate LoopMatch(pattern: seq<char>, text: seq<char>)
    decreases |pattern|
  {
    if pattern == [] then text == []
    else if pattern[0] == '*' && (text == [] || text[0] != '*') then
      exists k :: 0 <= k <= |text| && LoopMatch(pattern[1..], text[k..])
    else
      text != [] && Accepts(pattern[0], text[0]) && LoopMatch(pattern[1..], text[1..])
  }

  predicate Accepts(expected: char, actual: char) {
    expected == '?' || expected == actual
  }

  /** The characters of `pattern[from..to]` are accepted one by one by the text
      from `at` on. */
  ghost predicate Aligned(pattern: seq<char>, from: nat, to: nat, text: seq<char>, at: nat)
    requires from <= to <= |pattern|
  {
    && at + (to - from) <= |text|
    && forall x :: from <= x < to ==> Accepts(pattern[x], text[at + (x - from)])
  }

  /** Only the latest star has to be retried: a match that starts `pattern[from..]`
      anywhere at or after `at` passes `pattern[to..]` at or after the end of the
      aligned attempt, so whatever an older star could still absorb the newer one
      can absorb as well. */
  lemma {:induction false} LaterAttemptPassesNewStar(
    pattern: seq<char>, from: nat, to: nat, text: seq<char>, at: nat, x: nat, k: nat) returns (end: nat)
    requires from <= x <= to <= |pattern| && Aligned(pattern, from, to, text, at)
    requires at + (x - from) <= k <= |text| && LoopMatch(pattern[x..], text[k..])
    ensures at + (to - from) <= end <= |text| && LoopMatch(pattern[to..], text[end..])
    decreases |pattern| - x
  {
    if x == to {
      return k;
    }
    var rest, tail := pattern[x..], text[k..];
    assert rest[1..] == pattern[x + 1..];
    if rest[0] == '*' && (tail == [] || tail[0] != '*') {
      var skip :| 0 <= skip <= |tail| && LoopMatch(rest[1..], tail[skip..]);
      assert tail[skip..] == text[k + skip..];
      assert Accepts(pattern[x], text[at + (x - from)]);
      end := LaterAttemptPassesNewStar(pattern, from, to, text, at, x + 1, k + skip);
    } else {
      assert tail[1..] == text[k + 1..];
      end := LaterAttemptPassesNewStar(pattern, from, to, text, at, x + 1, k + 1);
    }
  }

  /** Some retry of the star at `star`, not earlier than `from`, succeeds. */
  ghost predicate SomeRetry(pattern: seq<char>, star: nat, text: seq<char>, from: nat)
    requires star < |pattern|
  {
    exists k :: from <= k <= |text| && LoopMatch(pattern[star + 1..], text[k..])
  }

  /** The loop state still decides the whole question. */
  ghost predicate Decides(
    pattern: seq<char>, text: seq<char>, patternIndex: nat, textIndex: nat,
    starIndex: Option<nat>, starTextIndex: nat)
    requires patternIndex <= |pattern| && textIndex <= |text|
  {
    match starIndex
    case None =>
      LoopMatch(pattern, text) == LoopMatch(pattern[patternIndex..], text[textIndex..])
    case Some(star) =>
      && star < patternIndex
      && textIndex - starTextIndex == patternIndex - (star + 1)
      && Aligned(pattern, star + 1, patternIndex, text, starTextIndex)
      && LoopMatch(pattern, text) == SomeRetry(pattern, star, text, starTextIndex)
      && LoopMatch(pattern[star + 1..], text[starTextIndex..])
         == LoopMatch(pattern[patternIndex..], text[textIndex..])
  }

  lemma StarMeansRetry(pattern: seq<char>, text: seq<char>, patternIndex: nat, textIndex: nat)
    requires patternIndex < |pattern| && textIndex < |text|
    requires pattern[patternIndex] == '*' && text[textIndex] != '*'
    ensures LoopMatch(pattern[patternIndex..], text[textIndex..]) == SomeRetry(pattern, patternIndex, text, textIndex)
  {
    var rest, tail := pattern[patternIndex..], text[textIndex..];
    assert rest[1..] == pattern[patternIndex + 1..];
    forall k | 0 <= k <= |tail| ensures tail[k..] == text[textIndex + k..] {}
    if SomeRetry(pattern, patternIndex, text, textIndex) {
      var k :| textIndex <= k <= |text| && LoopMatch(pattern[patternIndex + 1..], text[k..]);
      assert tail[k - textIndex..] == text[k..];
    }
  }

  /** An attempt that gets as far as a star succeeds through a retry of it. */
  lemma AttemptRetries(pattern: seq<char>, text: seq<char>, patternIndex: nat, textIndex: nat, end: nat)
    requires patternIndex < |pattern| && pattern[patternIndex] == '*' && textIndex <= end <= |text|
    requires LoopMatch(pattern[patternIndex..], text[end..])
    ensures SomeRetry(pattern, patternIndex, text, textIndex)
  {
    var here := text[end..];
    assert pattern[patternIndex..][1..] == pattern[patternIndex + 1..];
    if here == [] || here[0] != '*' {
      var skip :| 0 <= skip <= |here| && LoopMatch(pattern[patternIndex + 1..], here[skip..]);
      assert here[skip..] == text[end + skip..];
    } else {
      assert here[1..] == text[end + 1..];
    }
  }

  /** Reaching a star that is not itself in front of a literal `*` makes it the
      only star worth remembering. */
  lemma StarBecomesLatest(
    pattern: seq<char>, text: seq<char>, patternIndex: nat, textIndex: nat,
    starIndex: Option<nat>, starTextIndex: nat)
    requires patternIndex < |pattern| && textIndex < |text|
    requires pattern[patternIndex] == '*' && text[textIndex] != '*'
    requires Decides(pattern, text, patternIndex, textIndex, starIndex, starTextIndex)
    ensures Decides(pattern, text, patternIndex + 1, textIndex, Some(patternIndex), textIndex)
  {
    hide LoopMatch;
    StarMeansRetry(pattern, text, patternIndex, textIndex);
    if starIndex.Some? && SomeRetry(pattern, starIndex.value, text, starTextIndex) {
      var star := starIndex.value;
      var k :| starTextIndex <= k <= |text| && LoopMatch(pattern[star + 1..], text[k..]);
      var end := LaterAttemptPassesNewStar(
        pattern, star + 1, patternIndex, text, starTextIndex, star + 1, k);
      AttemptRetries(pattern, text, patternIndex, textIndex, end);
    }
  }

  /** Consuming one character keeps the current attempt aligned. */
  lemma CharacterConsumed(
    pattern: seq<char>, text: seq<char>, patternIndex: nat, textIndex: nat,
    starIndex: Option<nat>, starTextIndex: nat)
    requires patternIndex < |pattern| && textIndex < |text|
    requires Accepts(pattern[patternIndex], text[textIndex])
    requires Decides(pattern, text, patternIndex, textIndex, starIndex, starTextIndex)
    ensures Decides(pattern, text, patternIndex + 1, textIndex + 1, starIndex, starTextIndex)
  {
    var rest, tail := pattern[patternIndex..], text[textIndex..];
    assert rest[1..] == pattern[patternIndex + 1..] && tail[1..] == text[textIndex + 1..];
    assert LoopMatch(rest, tail) == LoopMatch(rest[1..], tail[1..]);
  }

  /** A failed attempt leaves only the later retries of the remembered star. */
  lemma AttemptFailed(
    pattern: seq<char>, text: seq<char>, patternIndex: nat, textIndex: nat,
    starIndex: Option<nat>, starTextIndex: nat)
    requires patternIndex <= |pattern| && textIndex < |text|
    requires patternIndex < |pattern| ==>
               !Accepts(pattern[patternIndex], text[textIndex]) && pattern[patternIndex] != '*'
    requires Decides(pattern, text, patternIndex, textIndex, starIndex, starTextIndex)
    ensures starIndex.None? ==> !LoopMatch(pattern, text)
    ensures starIndex.Some? && starTextIndex < |text| ==>
              Decides(pattern, text, starIndex.value + 1, starTextIndex + 1, starIndex, starTextIndex + 1)
  {
    var rest, tail := pattern[patternIndex..], text[textIndex..];
    assert rest != [] ==> rest[0] == pattern[patternIndex];
    assert !LoopMatch(rest, tail);
  }

  /** At the end of the text the current attempt is as good as any later one. */
  lemma TextConsumed(
    pattern: seq<char>, text: seq<char>, patternIndex: nat,
    starIndex: Option<nat>, starTextIndex: nat)
    requires patternIndex <= |pattern|
    requires Decides(pattern, text, patternIndex, |text|, starIndex, starTextIndex)
    ensures LoopMatch(pattern, text) == LoopMatch(pattern[patternIndex..], [])
  {
    assert text[|text|..] == [];
    if starIndex.Some? && SomeRetry(pattern, starIndex.value, text, starTextIndex) {
      var star := starIndex.value;
      var k :| starTextIndex <= k <= |text| && LoopMatch(pattern[star + 1..], text[k..]);
      var end := LaterAttemptPassesNewStar(
        pattern, star + 1, patternIndex, text, starTextIndex, star + 1, k);
    }
  }

  /** The matcher itself; the answer is `LoopMatch` for every pattern and text. */
  method WildcardMatch(pattern: seq<char>, text: seq<char>) returns (matched: bool)
    ensures matched == LoopMatch(pattern, text)
    ensures '*' !in pattern || '*' !in text ==> matched == Glob(pattern, text)
  {
    hide LoopMatch, Glob, Decides, SomeRetry;
    var patternIndex: nat, textIndex: nat := 0, 0;
    var starIndex: Option<nat> := None;
    var starTextIndex: nat := 0;
    AgreeWithoutLiteralStar(pattern, text);
    NothingReadYet(pattern, text);
    while textIndex < |text|
      invariant patternIndex <= |pattern| && starTextIndex <= textIndex <= |text|
      invariant starIndex.Some? ==> starIndex.value < patternIndex
      invariant Decides(pattern, text, patternIndex, textIndex, starIndex, starTextIndex)
      decreases |pattern| - (if starIndex.Some? then starIndex.value else -1),
                |text| - starTextIndex, |text| - textIndex
    {
      if patternIndex < |pattern| && Accepts(pattern[patternIndex], text[textIndex]) {
        CharacterConsumed(pattern, text, patternIndex, textIndex, starIndex, starTextIndex);
        patternIndex, textIndex := patternIndex + 1, textIndex + 1;
      } else if patternIndex < |pattern| && pattern[patternIndex] == '*' {
        StarBecomesLatest(pattern, text, patternIndex, textIndex, starIndex, starTextIndex);
        starIndex := Some(patternIndex);
        patternIndex := patternIndex + 1;
        starTextIndex := textIndex;
      } else if starIndex.Some? {
        AttemptFailed(pattern, text, patternIndex, textIndex, starIndex, starTextIndex);
        patternIndex := starIndex.value + 1;
        starTextIndex := starTextIndex + 1;
        textIndex := starTextIndex;
      } else {
        AttemptFailed(pattern, text, patternIndex, textIndex, starIndex, starTextIndex);
        return false;
      }
    }
    TextConsumed(pattern, text, patternIndex, starIndex, starTextIndex);
    OnlyStarsMatchNothing(pattern[patternIndex..]);
    matched := forall x :: patternIndex <= x < |pattern| ==> pattern[x] == '*';
    assert forall x :: patternIndex <= x < |pattern| ==> pattern[x] == pattern[patternIndex..][x - patternIndex];
  }

  lemma NothingReadYet(pattern: seq<char>, text: seq<char>)
    ensures Decides(pattern, text, 0, 0, None, 0)
  {
    assert pattern[0..] == pattern && text[0..] == text;
  }

  lemma {:induction false} OnlyStarsMatchNothing(pattern: seq<char>)
    ensures LoopMatch(pattern, []) <==> forall x :: 0 <= x < |pattern| ==> pattern[x] == '*'
  {
    if pattern != [] {
      OnlyStarsMatchNothing(pattern[1..]);
      if pattern[0] == '*' {
        var empty: seq<char> := [];
        assert LoopMatch(pattern, []) == LoopMatch(pattern[1..], []) by {
          assert empty[0..] == [];
        }
        assert forall x :: 0 < x < |pattern| ==> pattern[x] == pattern[1..][x - 1];
      }
    }
  }

  /** The loop never accepts a name the wildcard does not describe. */
  lemma {:induction false} LoopMatchIsSound(pattern: seq<char>, text: seq<char>)
    requires LoopMatch(pattern, text)
    ensures Glob(pattern, text)
  {
    if pattern != [] {
      if pattern[0] == '*' && (text == [] || text[0] != '*') {
        var k :| 0 <= k <= |text| && LoopMatch(pattern[1..], text[k..]);
        LoopMatchIsSound(pattern[1..], text[k..]);
      } else {
        LoopMatchIsSound(pattern[1..], text[1..]);
      }
    }
  }

  lemma {:induction false} AgreeWithoutLiteralStar(pattern: seq<char>, text: seq<char>)
    ensures '*' !in pattern || '*' !in text ==> LoopMatch(pattern, text) == Glob(pattern, text)
  {
    if ('*' !in pattern || '*' !in text) && Glob(pattern, text) && pattern != [] {
      if pattern[0] == '*' {
        var k :| 0 <= k <= |text| && Glob(pattern[1..], text[k..]);
        AgreeWithoutLiteralStar(pattern[1..], text[k..]);
      } else {
        AgreeWithoutLiteralStar(pattern[1..], text[1..]);
      }
    }
    if LoopMatch(pattern, text) {
      LoopMatchIsSound(pattern, text);
    }
  }

  ghost function Questions(n: nat): (s: seq<char>)
    ensures |s| == n && forall x :: 0 <= x < n ==> s[x] == '?'
  {
    seq(n, _ => '?')
  }

  /** Without an active star a pattern consumes exactly its own length. */
  lemma {:induction false} LengthsDisagree(pattern: seq<char>, text: seq<char>)
    requires |pattern| != |text|
    requires forall x :: 0 <= x < |pattern| && pattern[x] == '*' ==> x < |text| && text[x] == '*'
    ensures !LoopMatch(pattern, text)
  {
    if pattern != [] && text != [] {
      forall x | 0 <= x < |pattern[1..]| && pattern[1..][x] == '*'
        ensures x < |text[1..]| && text[1..][x] == '*'
      {
        assert pattern[x + 1] == '*';
      }
      LengthsDisagree(pattern[1..], text[1..]);
    }
  }

  lemma {:induction false} QuestionsMatch(text: seq<char>)
    ensures Glob(Questions(|text|), text)
  {
    if text != [] {
      assert Questions(|text|)[1..] == Questions(|text[1..]|);
      QuestionsMatch(text[1..]);
    }
  }

  /** A prefix of ordinary characters in front of something that matches. */
  lemma {:induction false} GlobAfterPrefix(prefix: seq<char>, actual: seq<char>, pattern: seq<char>, text: seq<char>)
    requires |prefix| == |actual| && Glob(pattern, text)
    requires forall x :: 0 <= x < |prefix| ==> prefix[x] == '*' || Accepts(prefix[x], actual[x])
    ensures Glob(prefix + pattern, actual + text)
  {
    if prefix == [] {
      assert prefix + pattern == pattern && actual + text == text;
    } else {
      GlobAfterPrefix(prefix[1..], actual[1..], pattern, text);
      assert (prefix + pattern)[1..] == prefix[1..] + pattern;
      assert (actual + text)[1..] == actual[1..] + text;
    }
  }

  predicate IsLiteral(pattern: seq<char>) {
    '*' !in pattern && '?' !in pattern
  }

  /** Ordinary characters in front must be there, one for one. */
  lemma {:induction false} GlobAfterLiteral(prefix: seq<char>, pattern: seq<char>, text: seq<char>)
    requires IsLiteral(prefix)
    ensures Glob(prefix + pattern, text) <==> prefix <= text && Glob(pattern, text[|prefix|..])
  {
    if prefix == [] {
      assert prefix + pattern == pattern && text[0..] == text;
    } else {
      var whole := prefix + pattern;
      assert whole[1..] == prefix[1..] + pattern && prefix[0] in prefix;
      if text != [] && prefix[0] == text[0] {
        GlobAfterLiteral(prefix[1..], pattern, text[1..]);
        assert prefix <= text <==> prefix[1..] <= text[1..] by {
          assert prefix == [prefix[0]] + prefix[1..] && text == [text[0]] + text[1..];
        }
      }
    }
  }

  /** A query without wildcards matches exactly itself. */
  lemma LiteralMatchesItself(pattern: seq<char>, text: seq<char>)
    requires IsLiteral(pattern)
    ensures LoopMatch(pattern, text) <==> text == pattern
  {
    hide Glob, LoopMatch;
    GlobAfterLiteral(pattern, [], text);
    EmptyMatchesEmpty(text[if pattern <= text then |pattern| else 0..]);
    assert pattern + [] == pattern;
    AgreeWithoutLiteralStar(pattern, text);
  }

  lemma EmptyMatchesEmpty(text: seq<char>)
    ensures Glob([], text) <==> text == []
  {
  }

  /** One star lets anything stand between the beginning and the end. */
  lemma StarStandsForAnything(before: seq<char>, after: seq<char>, text: seq<char>)
    requires IsLiteral(before) && IsLiteral(after) && '*' !in text
    ensures LoopMatch(before + ['*'] + after, text) <==>
              |before| + |after| <= |text| && text[..|before|] == before && text[|text| - |after|..] == after
  {
    hide *;
    AgreeWithoutLiteralStar(before + ['*'] + after, text);
    StarBetween(before, after, text);
    PrefixAndSuffix(before, after, text);
  }

  lemma StarBetween(before: seq<char>, after: seq<char>, text: seq<char>)
    requires IsLiteral(before) && IsLiteral(after)
    ensures Glob(before + ['*'] + after, text) <==>
              before <= text && |after| <= |text[|before|..]|
              && text[|before|..][|text[|before|..]| - |after|..] == after
  {
    hide *;
    assert before + ['*'] + after == before + (['*'] + after);
    GlobAfterLiteral(before, ['*'] + after, text);
    if before <= text {
      StarThenLiteral(after, text[|before|..]);
    }
  }

  lemma PrefixAndSuffix(before: seq<char>, after: seq<char>, text: seq<char>)
    ensures |before| + |after| <= |text| && text[..|before|] == before && text[|text| - |after|..] == after <==>
              before <= text && |after| <= |text[|before|..]|
              && text[|before|..][|text[|before|..]| - |after|..] == after
  {
    if |before| + |after| <= |text| {
      assert text[|before|..][|text| - |before| - |after|..] == text[|text| - |after|..];
    }
  }

  lemma StarThenLiteral(after: seq<char>, rest: seq<char>)
    requires IsLiteral(after)
    ensures Glob(['*'] + after, rest) <==> |after| <= |rest| && rest[|rest| - |after|..] == after
  {
    assert (['*'] + after)[1..] == after && after + [] == after;
    forall k | 0 <= k <= |rest| ensures Glob(after, rest[k..]) <==> rest[k..] == after {
      GlobAfterLiteral(after, [], rest[k..]);
    }
  }

  /** Question marks match by length. */
  lemma {:induction false} QuestionsMatchByLength(n: nat, text: seq<char>)
    ensures LoopMatch(Questions(n), text) <==> |text| == n
  {
    if n > 0 && text != [] {
      assert Questions(n)[1..] == Questions(n - 1);
      QuestionsMatchByLength(n - 1, text[1..]);
    }
  }

  /** Exactly which names the matcher treats as documented for every query. */
  lemma TextIsSafeIffNoLiteralStar(text: seq<char>)
    ensures (forall pattern :: LoopMatch(pattern, text) == Glob(pattern, text)) <==> '*' !in text
  {
    forall pattern { AgreeWithoutLiteralStar(pattern, text); }
    if '*' in text {
      var i := FirstStar(text);
      var rest := text[i..];
      var pattern := text[..i] + (['*'] + Questions(|rest|));
      assert Glob(pattern, text) by {
        QuestionsMatch(rest);
        assert (['*'] + Questions(|rest|))[1..] == Questions(|rest|) && rest[0..] == rest;
        GlobAfterPrefix(text[..i], text[..i], ['*'] + Questions(|rest|), rest);
        assert text[..i] + rest == text;
      }
      LengthsDisagree(pattern, text);
      assert LoopMatch(pattern, text) != Glob(pattern, text);
    }
  }

  lemma {:induction false} FirstStar(text: seq<char>) returns (i: nat)
    requires '*' in text
    ensures i < |text| && text[i] == '*' && '*' !in text[..i]
  {
    i := 0;
    while text[i] != '*'
      invariant i < |text| && '*' !in text[..i] && '*' in text[i..]
      decreases |text| - i
    {
      i := i + 1;
    }
  }

  ghost function Instance(pattern: seq<char>): (text: seq<char>)
    ensures |text| == |pattern|
    ensures forall x :: 0 <= x < |text| ==> text[x] == if pattern[x] == '?' then 'x' else pattern[x]
  {
    seq(|pattern|, x requires 0 <= x < |pattern| => if pattern[x] == '?' then 'x' else pattern[x])
  }

  /** Exactly which queries the matcher treats as documented for every name: a
      query with a star fails on a name that carries a literal `*` at the place
      of each of its stars and one extra character after the last of them. */
  lemma PatternIsSafeIffNoStar(pattern: seq<char>)
    ensures (forall text :: LoopMatch(pattern, text) == Glob(pattern, text)) <==> '*' !in pattern
  {
    hide Glob, LoopMatch;
    forall text { AgreeWithoutLiteralStar(pattern, text); }
    if '*' in pattern {
      var j := LastStar(pattern);
      var head, after := pattern[..j], pattern[j + 1..];
      var tail := ['*', 'x'] + Instance(after);
      var text := Instance(head) + tail;
      assert pattern == head + (['*'] + after);
      InstanceMatches(head, after);
      assert !LoopMatch(pattern, text) by {
        assert forall x :: j < x < |pattern| ==> pattern[x] == after[x - (j + 1)];
        LengthsDisagree(pattern, text);
      }
    }
  }

  /** A star takes a literal star and one more character; the rest is verbatim. */
  lemma InstanceMatches(head: seq<char>, after: seq<char>)
    ensures Glob(head + (['*'] + after), Instance(head) + (['*', 'x'] + Instance(after)))
  {
    var tail := ['*', 'x'] + Instance(after);
    GlobAfterPrefix(after, Instance(after), [], []);
    assert after + [] == after && Instance(after) + [] == Instance(after);
    assert tail[2..] == Instance(after) && (['*'] + after)[1..] == after;
    assert Glob(['*'] + after, tail);
    GlobAfterPrefix(head, Instance(head), ['*'] + after, tail);
  }

  lemma {:induction false} LastStar(pattern: seq<char>) returns (j: nat)
    requires '*' in pattern
    ensures j < |pattern| && pattern[j] == '*' && '*' !in pattern[j + 1..]
  {
    j := |pattern| - 1;
    while pattern[j] != '*'
      invariant j < |pattern| && '*' !in pattern[j + 1..] && '*' in pattern[..j + 1]
      decreases j
    {
      j := j - 1;
    }
  }
}

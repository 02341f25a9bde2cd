/** White space as `char::is_whitespace` knows it. */
module Texts {

  predicate IsWhitespace(c: char): (yes: bool)
    ensures yes <==>
            var n := c as int;
            9 <= n <= 13 || n == 32 || n == 0x85 || n == 0xA0 || n == 0x1680 || 0x2000 <= n <= 0x200A
            || 0x2028 <= n <= 0x2029 || n == 0x202F || n == 0x205F || n == 0x3000
  {
    c in {'\U{9}', '\U{A}', '\U{B}', '\U{C}', '\U{D}', ' ', '\U{85}', '\U{A0}', '\U{1680}', '\U{2000}', '\U{2001}',
          '\U{2002}', '\U{2003}', '\U{2004}', '\U{2005}', '\U{2006}', '\U{2007}', '\U{2008}', '\U{2009}', '\U{200A}',
          '\U{2028}', '\U{2029}', '\U{202F}', '\U{205F}', '\U{3000}'}
  }

  function TrimEnd(s: string): (trimmed: string)
    ensures trimmed <= s && (trimmed != [] ==> !IsWhitespace(trimmed[|trimmed| - 1]))
  {
    if s != [] && IsWhitespace(s[|s| - 1]) then TrimEnd(s[..|s| - 1]) else s
  }

  function TrimStart(s: string): (trimmed: string)
    ensures |trimmed| <= |s| && (trimmed != [] ==> !IsWhitespace(trimmed[0]))
  {
    if s != [] && IsWhitespace(s[0]) then TrimStart(s[1..]) else s
  }

  function Trim(s: string): string {
    TrimEnd(TrimStart(s))
  }

  predicate IsBlank(s: string) {
    Trim(s) == []
  }

  lemma {:induction false} EndTrimmedAway(s: string)
    ensures TrimEnd(s) == [] <==> forall c :: c in s ==> IsWhitespace(c)
  {
    if s != [] {
      var front, last := s[..|s| - 1], s[|s| - 1];
      EndTrimmedAway(front);
      assert last in s && forall c :: c in s <==> c in front || c == last;
    }
  }

  lemma {:induction false} StartTrimmedAway(s: string)
    ensures (forall c :: c in TrimStart(s) ==> IsWhitespace(c)) <==> forall c :: c in s ==> IsWhitespace(c)
  {
    if s != [] && IsWhitespace(s[0]) {
      StartTrimmedAway(s[1..]);
      assert forall c :: c in s <==> c == s[0] || c in s[1..];
    }
  }

  /** Nothing but white space, whichever way it is trimmed. */
  lemma BlankMeans(s: string)
    ensures IsBlank(s) <==> forall c :: c in s ==> IsWhitespace(c)
  {
    StartTrimmedAway(s);
    EndTrimmedAway(TrimStart(s));
  }
}

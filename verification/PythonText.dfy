/** The string operations of Python that the accessibility bridge uses. */
module PythonText {
  predicate IsSpace(c: char) {
    || '\t' <= c <= '\r' || '\U{001C}' <= c <= ' ' || c == '\U{0085}' || c == '\U{00A0}' || c == '\U{1680}'
    || '\U{2000}' <= c <= '\U{200A}' || c == '\U{2028}' || c == '\U{2029}' || c == '\U{202F}'
    || c == '\U{205F}' || c == '\U{3000}'
  }

  function RStrip(s: string): (r: string)
    ensures r <= s && (r != "" ==> !IsSpace(r[|r| - 1]))
    ensures forall k :: |r| <= k < |s| ==> IsSpace(s[k])
    ensures forall k :: 0 <= k < |s| && !IsSpace(s[k]) ==> k < |r|
  {
    if s != [] && IsSpace(s[|s| - 1]) then RStrip(s[..|s| - 1]) else s
  }

  function LStrip(s: string): (r: string)
    ensures |r| <= |s| && r == s[|s| - |r|..] && (r != "" ==> !IsSpace(r[0]))
    ensures forall k :: 0 <= k < |s| - |r| ==> IsSpace(s[k])
  {
    if s != [] && IsSpace(s[0]) then LStrip(s[1..]) else s
  }

  function Strip(s: string): string {
    RStrip(LStrip(s))
  }

  function WordEnd(s: string, i: nat): (r: nat)
    requires i <= |s|
    ensures i <= r <= |s| && (i < |s| && !IsSpace(s[i]) ==> i < r)
    decreases |s| - i
  {
    if i < |s| && !IsSpace(s[i]) then WordEnd(s, i + 1) else i
  }

  function Words(s: string): seq<string> {
    if s == [] then []
    else if IsSpace(s[0]) then Words(s[1..])
    else [s[..WordEnd(s, 0)]] + Words(s[WordEnd(s, 0)..])
  }

  function Join(words: seq<string>, separator: string): string {
    if words == [] then "" else if |words| == 1 then words[0] else words[0] + separator + Join(words[1..], separator)
  }

  /** Words separated by single spaces. */
  function Collapse(s: string): string {
    Join(Words(s), " ")
  }

  predicate Contains(s: string, part: string) {
    part <= s || (s != [] && Contains(s[1..], part))
  }

  // ---------- What these operations mean ----------

  /** Python's white space. */
  lemma SpacesAre(c: char)
    ensures IsSpace(c) <==>
      c in "\t\n\U{000B}\U{000C}\r\U{001C}\U{001D}\U{001E}\U{001F} \U{0085}\U{00A0}\U{1680}\U{2000}\U{2001}\U{2002}"
      || c in "\U{2003}\U{2004}\U{2005}\U{2006}\U{2007}\U{2008}\U{2009}\U{200A}\U{2028}\U{2029}\U{202F}\U{205F}\U{3000}"
  {
  }

  /** Nothing but space is stripped, and all of it at both ends. */
  lemma StripTakesSpaces(s: string) returns (before: string, after: string)
    ensures s == before + Strip(s) + after
    ensures (forall c :: c in before ==> IsSpace(c)) && (forall c :: c in after ==> IsSpace(c))
    ensures Strip(s) != "" ==> !IsSpace(Strip(s)[0]) && !IsSpace(Strip(s)[|Strip(s)| - 1])
  {
    hide LStrip, RStrip, IsSpace;
    var left := LStrip(s);
    before, after := s[..|s| - |left|], left[|Strip(s)|..];
  }

  predicate IsWord(s: string) {
    s != "" && forall i :: 0 <= i < |s| ==> !IsSpace(s[i])
  }

  /** The laws that determine the words of a text: space before a word is skipped, and a word ends at the next
      space or at the end. */
  lemma WordsAre(w: string, c: char, rest: string)
    requires IsWord(w) && IsSpace(c)
    ensures Words("") == [] && Words([c] + rest) == Words(rest)
    ensures Words(w) == [w] && Words(w + ([c] + rest)) == [w] + Words(rest)
  {
    assert ([c] + rest)[1..] == rest;
    WordEndIs(w, "", 0);
    assert w + "" == w && w[..|w|] == w && w[|w|..] == "";
    var s := w + ([c] + rest);
    WordEndIs(w, [c] + rest, 0);
    assert s[..|w|] == w && s[|w|..] == [c] + rest && s[0] == w[0];
  }

  lemma {:induction false} WordEndIs(w: string, rest: string, i: nat)
    requires i <= |w| && (forall k :: 0 <= k < |w| ==> !IsSpace(w[k])) && (rest != "" ==> IsSpace(rest[0]))
    ensures WordEnd(w + rest, i) == |w|
    decreases |w| - i
  {
    if i < |w| {
      WordEndIs(w, rest, i + 1);
    }
  }

  lemma {:induction false} BlankIff(s: string)
    ensures Collapse(s) == "" <==> forall c :: c in s ==> IsSpace(c)
  {
    hide Join;
    BlankWordsIff(s);
    JoinedBlankIff(Words(s));
  }

  lemma {:induction false} BlankWordsIff(s: string)
    ensures Words(s) == [] <==> forall c :: c in s ==> IsSpace(c)
    ensures forall w :: w in Words(s) ==> w != ""
    decreases |s|
  {
    if s != "" {
      if IsSpace(s[0]) {
        BlankWordsIff(s[1..]);
        assert s == [s[0]] + s[1..];
      } else {
        assert s[0] in s;
        BlankWordsIff(s[WordEnd(s, 0)..]);
      }
    }
  }

  lemma JoinedBlankIff(words: seq<string>)
    requires forall w :: w in words ==> w != ""
    ensures Join(words, " ") == "" <==> words == []
  {
    assert words != [] ==> words[0] in words;
  }

  /** The part occurs somewhere. */
  lemma {:induction false} ContainsAt(s: string, before: string, part: string, after: string)
    requires s == before + part + after
    ensures Contains(s, part)
    decreases |before|
  {
    if before == "" {
      assert s == part + after;
    } else {
      ContainsAt(s[1..], before[1..], part, after);
    }
  }

  lemma {:induction false} ContainsWhere(s: string, part: string) returns (before: string, after: string)
    requires Contains(s, part)
    ensures s == before + part + after
  {
    if part <= s {
      before, after := "", s[|part|..];
    } else {
      before, after := ContainsWhere(s[1..], part);
      before := [s[0]] + before;
    }
  }
}

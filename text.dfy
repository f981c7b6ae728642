/** The string operations of Python's str that the interview engine uses, on ASCII. The
    functions carry no quantified contracts; what they compute is stated by the lemmas
    beside them. */
module Text {

  /** str.isspace on ASCII: space, the controls \t \n \v \f \r and the separators \x1c to \x1f. */
  predicate IsSpace(c: char) {
    c == ' ' || ('\t' <= c <= '\r') || ('\U{1C}' <= c <= '\U{1F}')
  }

  /** All characters of s are whitespace (vacuously so for ""). */
  ghost predicate AllSpace(s: string) {
    forall i :: 0 <= i < |s| ==> IsSpace(s[i])
  }

  /** str.lstrip(). */
  function TrimLeft(s: string): string {
    if s != [] && IsSpace(s[0]) then TrimLeft(s[1..]) else s
  }

  /** str.rstrip(). */
  function TrimRight(s: string): string {
    if s != [] && IsSpace(s[|s| - 1]) then TrimRight(s[..|s| - 1]) else s
  }

  /** str.strip(). */
  function Strip(s: string): string {
    TrimRight(TrimLeft(s))
  }

  /** lstrip keeps a suffix and drops only leading whitespace. */
  lemma {:induction false} TrimLeftSpec(s: string)
    ensures |TrimLeft(s)| <= |s| && TrimLeft(s) == s[|s| - |TrimLeft(s)|..]
    ensures AllSpace(s[..|s| - |TrimLeft(s)|])
    ensures TrimLeft(s) != [] ==> !IsSpace(TrimLeft(s)[0])
  {
    if s != [] && IsSpace(s[0]) {
      TrimLeftSpec(s[1..]);
      var r := TrimLeft(s[1..]);
      assert s[..|s| - |r|] == [s[0]] + s[1..][..|s| - 1 - |r|];
    }
  }

  /** rstrip keeps a prefix and drops only trailing whitespace. */
  lemma {:induction false} TrimRightSpec(s: string)
    ensures |TrimRight(s)| <= |s| && TrimRight(s) == s[..|TrimRight(s)|]
    ensures AllSpace(s[|TrimRight(s)|..])
    ensures TrimRight(s) != [] ==> !IsSpace(TrimRight(s)[|TrimRight(s)| - 1])
  {
    if s != [] && IsSpace(s[|s| - 1]) {
      TrimRightSpec(s[..|s| - 1]);
      var r := TrimRight(s[..|s| - 1]);
      assert s[|r|..] == s[..|s| - 1][|r|..] + [s[|s| - 1]];
    }
  }

  /** str.strip() drops whitespace at both ends only: the result is "" exactly when s is all
      whitespace, and otherwise it begins and ends with a character that is not. */
  lemma StripSpec(s: string)
    ensures |Strip(s)| <= |s|
    ensures Strip(s) == [] <==> AllSpace(s)
    ensures Strip(s) != [] ==> !IsSpace(Strip(s)[0]) && !IsSpace(Strip(s)[|Strip(s)| - 1])
  {
    var t := TrimLeft(s);
    TrimLeftSpec(s);
    TrimRightSpec(t);
    var r := TrimRight(t);
    assert t[0..] == t && s[..|s|] == s;
    assert forall i :: 0 <= i < |t| ==> t[i] == s[|s| - |t| + i];
    assert r != [] ==> r[0] == t[0];
  }

  /** The string is empty or whitespace only. */
  predicate IsBlank(s: string) {
    s == [] || (IsSpace(s[0]) && IsBlank(s[1..]))
  }

  /** IsBlank is Python's `s.strip() == ""`, and holds exactly for the all-whitespace strings. */
  lemma {:induction false} IsBlankIff(s: string)
    ensures IsBlank(s) <==> AllSpace(s)
    ensures IsBlank(s) <==> Strip(s) == ""
  {
    StripSpec(s);
    if s != [] {
      IsBlankIff(s[1..]);
      assert forall i :: 1 <= i < |s| ==> s[i] == s[1..][i - 1];
    }
  }

  function LowerChar(c: char): char {
    if 'A' <= c <= 'Z' then (c as int + 32) as char else c
  }

  function UpperChar(c: char): char {
    if 'a' <= c <= 'z' then (c as int - 32) as char else c
  }

  /** Cased characters in the sense of str.title: the ASCII letters. */
  predicate IsLetter(c: char) {
    'A' <= c <= 'Z' || 'a' <= c <= 'z'
  }

  /** str.lower() on ASCII. */
  function Lower(s: string): (r: string)
    ensures |r| == |s|
  {
    if s == [] then [] else [LowerChar(s[0])] + Lower(s[1..])
  }

  /** Lower maps every character through LowerChar. */
  lemma {:induction false} LowerSpec(s: string)
    ensures forall i :: 0 <= i < |s| ==> Lower(s)[i] == LowerChar(s[i])
  {
    if s != [] {
      LowerSpec(s[1..]);
      assert forall i :: 1 <= i < |s| ==> Lower(s)[i] == Lower(s[1..])[i - 1];
    }
  }

  /** `[opt.lower() for opt in options]`. */
  function LowerAll(options: seq<string>): (r: seq<string>)
    ensures |r| == |options| && forall i :: 0 <= i < |options| ==> r[i] == Lower(options[i])
  {
    if options == [] then [] else [Lower(options[0])] + LowerAll(options[1..])
  }

  /** A string with no upper-case letter. */
  ghost predicate IsLowerCase(s: string) {
    forall i :: 0 <= i < |s| ==> !('A' <= s[i] <= 'Z')
  }

  /** Lower-casing gives a lower-case string and leaves a lower-case string as it is. */
  lemma LowerOfLowerCase(s: string)
    ensures IsLowerCase(Lower(s))
    ensures IsLowerCase(s) ==> Lower(s) == s
  {
    LowerSpec(s);
  }

  /** Lower-casing is idempotent. */
  lemma LowerIdempotent(s: string)
    ensures Lower(Lower(s)) == Lower(s)
  {
    LowerOfLowerCase(s);
    LowerOfLowerCase(Lower(s));
  }

  /** Lower distributes over concatenation. */
  lemma LowerAppend(a: string, b: string)
    ensures Lower(a + b) == Lower(a) + Lower(b)
  {
    LowerSpec(a + b);
    LowerSpec(a);
    LowerSpec(b);
    forall i | 0 <= i < |a + b| ensures Lower(a + b)[i] == (Lower(a) + Lower(b))[i] {
      if i < |a| { assert (a + b)[i] == a[i]; } else { assert (a + b)[i] == b[i - |a|]; }
    }
  }

  /** str.title() on ASCII from one position on: a letter is upper-cased when the character
      before it is not a letter, and lower-cased otherwise; other characters are kept. */
  function TitleFrom(s: string, afterLetter: bool): (r: string)
    ensures |r| == |s|
  {
    if s == [] then []
    else
      var c := if afterLetter then LowerChar(s[0]) else UpperChar(s[0]);
      [c] + TitleFrom(s[1..], IsLetter(s[0]))
  }

  /** str.title(). */
  function Title(s: string): string {
    TitleFrom(s, false)
  }

  /** Title-casing puts every character in the case its predecessor decides: upper case at
      the start and after a non-letter, lower case after a letter. */
  lemma {:induction false} TitleCases(s: string, afterLetter: bool)
    ensures forall i :: 0 <= i < |s| ==>
      TitleFrom(s, afterLetter)[i] ==
        if (if i == 0 then afterLetter else IsLetter(s[i - 1])) then LowerChar(s[i]) else UpperChar(s[i])
  {
    if s != [] {
      TitleCases(s[1..], IsLetter(s[0]));
      assert TitleFrom(s, afterLetter)[0] == if afterLetter then LowerChar(s[0]) else UpperChar(s[0]);
      assert forall i :: 1 <= i < |s| ==> TitleFrom(s, afterLetter)[i] == TitleFrom(s[1..], IsLetter(s[0]))[i - 1];
      assert forall i :: 1 <= i < |s| ==> s[1..][i - 1] == s[i];
    }
  }

  /** Title-casing changes letters only, and into letters. */
  lemma {:induction false} TitleKeepsNonLetters(s: string, afterLetter: bool)
    ensures forall i :: 0 <= i < |s| && !IsLetter(s[i]) ==> TitleFrom(s, afterLetter)[i] == s[i]
    ensures forall i :: 0 <= i < |s| && IsLetter(s[i]) ==> IsLetter(TitleFrom(s, afterLetter)[i])
  {
    if s != [] {
      TitleKeepsNonLetters(s[1..], IsLetter(s[0]));
      assert forall i :: 1 <= i < |s| ==> TitleFrom(s, afterLetter)[i] == TitleFrom(s[1..], IsLetter(s[0]))[i - 1];
    }
  }

  /** str.replace(from, to) for single characters. */
  function ReplaceChar(s: string, from: char, to: char): (r: string)
    ensures |r| == |s|
  {
    if s == [] then [] else [if s[0] == from then to else s[0]] + ReplaceChar(s[1..], from, to)
  }

  /** replace substitutes every occurrence and nothing else. */
  lemma {:induction false} ReplaceCharSpec(s: string, from: char, to: char)
    ensures forall i :: 0 <= i < |s| ==> ReplaceChar(s, from, to)[i] == (if s[i] == from then to else s[i])
  {
    if s != [] {
      ReplaceCharSpec(s[1..], from, to);
      assert forall i :: 1 <= i < |s| ==> ReplaceChar(s, from, to)[i] == ReplaceChar(s[1..], from, to)[i - 1];
    }
  }

  /** str.isdigit() on ASCII: non-empty and every character a decimal digit. */
  predicate IsDigits(s: string) {
    |s| > 0 && forall i :: 0 <= i < |s| ==> '0' <= s[i] <= '9'
  }

  predicate StartsWith(s: string, prefix: string) {
    |prefix| <= |s| && s[..|prefix|] == prefix
  }

  /** Python's `needle in hay` for strings. */
  predicate Contains(hay: string, needle: string)
    decreases |hay|
  {
    StartsWith(hay, needle) || (hay != [] && Contains(hay[1..], needle))
  }

  /** needle occurs in hay at position i. */
  predicate OccursAt(hay: string, needle: string, i: int) {
    0 <= i && i + |needle| <= |hay| && hay[i..i + |needle|] == needle
  }

  /** `needle in hay` holds exactly when needle occurs at some position of hay. */
  lemma {:induction false} ContainsIffOccurs(hay: string, needle: string)
    ensures Contains(hay, needle) <==> exists i :: OccursAt(hay, needle, i)
  {
    if StartsWith(hay, needle) {
      assert OccursAt(hay, needle, 0);
    } else if hay == [] {
    } else {
      ContainsIffOccurs(hay[1..], needle);
      if exists i :: OccursAt(hay, needle, i) {
        var i :| OccursAt(hay, needle, i);
        assert i != 0;
        assert hay[1..][i - 1..i - 1 + |needle|] == hay[i..i + |needle|];
        assert OccursAt(hay[1..], needle, i - 1);
      }
      if Contains(hay[1..], needle) {
        var j :| OccursAt(hay[1..], needle, j);
        assert hay[1..][j..j + |needle|] == hay[j + 1..j + 1 + |needle|];
        assert OccursAt(hay, needle, j + 1);
      }
    }
  }

  /** A string contains itself wherever it stands between two others. */
  lemma ContainsInfix(prefix: string, needle: string, suffix: string)
    ensures Contains(prefix + needle + suffix, needle)
  {
    var hay := prefix + needle + suffix;
    assert hay[|prefix|..|prefix| + |needle|] == needle;
    assert OccursAt(hay, needle, |prefix|);
    ContainsIffOccurs(hay, needle);
  }

  /** A string contains whatever it ends with. */
  lemma ContainsEnd(prefix: string, needle: string)
    ensures Contains(prefix + needle, needle)
  {
    ContainsInfix(prefix, needle, "");
    assert prefix + needle + "" == prefix + needle;
  }

  /** Appending to a string keeps what it contains. */
  lemma ContainsAppend(hay: string, more: string, needle: string)
    requires Contains(hay, needle)
    ensures Contains(hay + more, needle)
  {
    ContainsIffOccurs(hay, needle);
    var i :| OccursAt(hay, needle, i);
    assert (hay + more)[i..i + |needle|] == hay[i..i + |needle|];
    assert OccursAt(hay + more, needle, i);
    ContainsIffOccurs(hay + more, needle);
  }

  /** Prepending to a string keeps what it contains. */
  lemma ContainsPrepend(more: string, hay: string, needle: string)
    requires Contains(hay, needle)
    ensures Contains(more + hay, needle)
  {
    ContainsIffOccurs(hay, needle);
    var i :| OccursAt(hay, needle, i);
    assert (more + hay)[|more| + i..|more| + i + |needle|] == hay[i..i + |needle|];
    assert OccursAt(more + hay, needle, |more| + i);
    ContainsIffOccurs(more + hay, needle);
  }

  /** Python's `s or fallback` on strings. */
  function OrElse(s: string, fallback: string): string {
    if s == "" then fallback else s
  }

  /** `sep.join(parts)`. */
  function Join(sep: string, parts: seq<string>): string {
    if parts == [] then ""
    else if |parts| == 1 then parts[0]
    else parts[0] + sep + Join(sep, parts[1..])
  }

  /** Every part can be found in the joined string. */
  lemma {:induction false} JoinContains(sep: string, parts: seq<string>)
    ensures forall i :: 0 <= i < |parts| ==> Contains(Join(sep, parts), parts[i])
  {
    if |parts| == 1 {
      ContainsInfix("", parts[0], "");
      assert "" + parts[0] + "" == Join(sep, parts);
    } else if |parts| > 1 {
      var rest := Join(sep, parts[1..]);
      JoinContains(sep, parts[1..]);
      ContainsInfix("", parts[0], sep + rest);
      assert "" + parts[0] + (sep + rest) == Join(sep, parts);
      forall i | 1 <= i < |parts|
        ensures Contains(Join(sep, parts), parts[i])
      {
        assert parts[i] == parts[1..][i - 1];
        ContainsPrepend(parts[0] + sep, rest, parts[i]);
      }
    }
  }

  /** With a non-empty separator, the join is empty exactly when there is no part or only an
      empty one, and `join(...) or fallback` falls back exactly then. */
  lemma {:induction false} JoinEmptyIff(sep: string, parts: seq<string>, fallback: string)
    requires sep != ""
    ensures Join(sep, parts) == "" <==> parts == [] || parts == [""]
    ensures OrElse(Join(sep, parts), fallback) == if parts == [] || parts == [""] then fallback else Join(sep, parts)
  {
    if |parts| > 1 {
      assert |Join(sep, parts)| >= |sep|;
    }
  }
}

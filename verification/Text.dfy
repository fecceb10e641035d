/** ASCII text as the hierarchy, import and network code trims and folds it. */
module Text {

  /** The ASCII characters that `str.strip` and `str.split` treat as white space. */
  predicate IsSpace(c: char) {
    9 <= c as int <= 13 || 28 <= c as int <= 32
  }

  function LowerChar(c: char): char {
    if 'A' <= c <= 'Z' then (c as int + 32) as char else c
  }

  function Lower(s: string): string {
    seq(|s|, i requires 0 <= i < |s| => LowerChar(s[i]))
  }

  function TrimLeft(s: string): string {
    if s != [] && IsSpace(s[0]) then TrimLeft(s[1..]) else s
  }

  function TrimRight(s: string): string {
    if s != [] && IsSpace(s[|s| - 1]) then TrimRight(s[..|s| - 1]) else s
  }

  function Strip(s: string): string {
    TrimRight(TrimLeft(s))
  }

  lemma {:induction false} TrimLeftStops(s: string)
    ensures TrimLeft(s) != [] ==> !IsSpace(TrimLeft(s)[0])
  {
    if s != [] && IsSpace(s[0]) {
      TrimLeftStops(s[1..]);
    }
  }

  lemma {:induction false} TrimRightStops(s: string)
    ensures TrimRight(s) <= s
    ensures TrimRight(s) != [] ==> !IsSpace(TrimRight(s)[|TrimRight(s)| - 1])
  {
    if s != [] && IsSpace(s[|s| - 1]) {
      TrimRightStops(s[..|s| - 1]);
    }
  }

  lemma StripIdempotent(s: string)
    ensures Strip(Strip(s)) == Strip(s)
  {
    TrimLeftStops(s);
    TrimRightStops(TrimLeft(s));
  }

  ghost predicate AllSpace(s: string) {
    forall i :: 0 <= i < |s| ==> IsSpace(s[i])
  }

  lemma {:induction false} TrimLeftCuts(s: string) returns (cut: string)
    ensures s == cut + TrimLeft(s) && AllSpace(cut)
  {
    if s != [] && IsSpace(s[0]) {
      var rest := TrimLeftCuts(s[1..]);
      cut := [s[0]] + rest;
    } else {
      cut := [];
    }
  }

  lemma {:induction false} TrimRightCuts(s: string) returns (cut: string)
    ensures s == TrimRight(s) + cut && AllSpace(cut)
  {
    if s != [] && IsSpace(s[|s| - 1]) {
      var rest := TrimRightCuts(s[..|s| - 1]);
      cut := rest + [s[|s| - 1]];
    } else {
      cut := [];
    }
  }

  /** Trimming cuts off white space at both ends, and all of it. */
  lemma StripExactly(s: string) returns (before: string, after: string)
    ensures s == before + Strip(s) + after && AllSpace(before) && AllSpace(after)
    ensures Strip(s) != [] ==> !IsSpace(Strip(s)[0]) && !IsSpace(Strip(s)[|Strip(s)| - 1])
  {
    before := TrimLeftCuts(s);
    after := TrimRightCuts(TrimLeft(s));
    TrimLeftStops(s);
    TrimRightStops(TrimLeft(s));
  }

  /** Tabs, line ends and spaces are white space; letters, digits and hyphens are not. */
  lemma SomeSpaces()
    ensures IsSpace(' ') && IsSpace('\t') && IsSpace('\n') && IsSpace('\r')
    ensures forall c :: 'a' <= c <= 'z' || 'A' <= c <= 'Z' || '0' <= c <= '9' || c == '-' ==> !IsSpace(c)
  {
  }

  /** Two characters are the same letter, whatever their case, or the same character. */
  predicate SameLetter(a: char, b: char) {
    a == b || ('A' <= a <= 'Z' && b as int == a as int + 32) || ('A' <= b <= 'Z' && a as int == b as int + 32)
  }

  /** Folding to lower case identifies exactly the texts with the same letters. */
  lemma LowerExactly(s: string, t: string)
    ensures Lower(s) == Lower(t) <==> |s| == |t| && forall i :: 0 <= i < |s| ==> SameLetter(s[i], t[i])
  {
    if Lower(s) == Lower(t) {
      forall i | 0 <= i < |s|
        ensures SameLetter(s[i], t[i])
      {
        assert Lower(s)[i] == Lower(t)[i];
      }
    }
  }
}

/** Normalisation of record values before matching, and what it comes to. ASCII text only. */
module Normalize {
  import opened Wrappers
  import opened Text
  import Matching

  /** The number of leading characters that are not white space. */
  function WordLength(s: string): (n: nat)
    ensures n <= |s|
    ensures s != [] && !IsSpace(s[0]) ==> n > 0
  {
    if s == [] || IsSpace(s[0]) then 0 else 1 + WordLength(s[1..])
  }

  /** `str.split()`: the maximal runs without white space. */
  function Words(s: string): seq<string>
    decreases |s|
  {
    if s == [] then []
    else if IsSpace(s[0]) then Words(s[1..])
    else [s[..WordLength(s)]] + Words(s[WordLength(s)..])
  }

  /** `" ".join(words)` */
  function Join(words: seq<string>): string {
    if words == [] then ""
    else if |words| == 1 then words[0]
    else words[0] + " " + Join(words[1..])
  }

  function Normalized(value: Option<string>): Option<string> {
    match value
    case None => None
    case Some(s) =>
      var text := Join(Words(Lower(Strip(s))));
      if text == "" then None else Some(text)
  }

  predicate IsPlain(c: char) {
    'a' <= c <= 'z' || '0' <= c <= '9'
  }

  /** The lower-case letters and digits of a text. */
  function Plain(s: string): string {
    if s == [] then [] else (if IsPlain(s[0]) then [s[0]] else []) + Plain(s[1..])
  }

  function Compact(value: Option<string>): Option<string> {
    match Normalized(value)
    case None => None
    case Some(text) => Some(Plain(text))
  }

  // ---------------------------------------------------------------- compaction

  lemma PlainNext(c: char, s: string)
    ensures Plain([c] + s) == (if IsPlain(c) then [c] else []) + Plain(s)
  {
    assert ([c] + s)[1..] == s;
  }

  lemma {:induction false} PlainJoin(a: string, b: string)
    ensures Plain(a + b) == Plain(a) + Plain(b)
  {
    if a == [] {
      assert a + b == b;
    } else {
      assert a + b == [a[0]] + (a[1..] + b) && a == [a[0]] + a[1..];
      PlainNext(a[0], a[1..]);
      PlainNext(a[0], a[1..] + b);
      PlainJoin(a[1..], b);
    }
  }

  lemma PlainOfJoin(word: string, rest: seq<string>)
    ensures Plain(Join([word] + rest)) == Plain(word) + Plain(Join(rest))
  {
    var words := [word] + rest;
    assert words[1..] == rest;
    if rest != [] {
      assert Join(words) == word + (" " + Join(rest));
      PlainJoin(word, " " + Join(rest));
      assert (" " + Join(rest))[1..] == Join(rest);
    }
  }

  lemma {:induction false} PlainWords(s: string)
    ensures Plain(Join(Words(s))) == Plain(s)
    decreases |s|
  {
    if s == [] {
    } else if IsSpace(s[0]) {
      PlainWords(s[1..]);
    } else {
      var n := WordLength(s);
      PlainWords(s[n..]);
      PlainOfJoin(s[..n], Words(s[n..]));
      PlainJoin(s[..n], s[n..]);
      assert s == s[..n] + s[n..];
    }
  }

  lemma {:induction false} PlainTrimLeft(s: string)
    ensures Plain(Lower(TrimLeft(s))) == Plain(Lower(s))
  {
    if s != [] && IsSpace(s[0]) {
      PlainTrimLeft(s[1..]);
      assert Lower(s)[1..] == Lower(s[1..]);
    }
  }

  lemma {:induction false} PlainTrimRight(s: string)
    ensures Plain(Lower(TrimRight(s))) == Plain(Lower(s))
  {
    if s != [] && IsSpace(s[|s| - 1]) {
      var n := |s| - 1;
      PlainTrimRight(s[..n]);
      assert Lower(s) == Lower(s[..n]) + [LowerChar(s[n])];
      PlainJoin(Lower(s[..n]), [LowerChar(s[n])]);
    }
  }

  /** Compaction amounts to keeping the letters and digits of the lower-case text: splitting, joining and
      trimming leave no trace in it. */
  lemma CompactIsPlain(s: string)
    ensures Compact(Some(s)).Some? ==> Compact(Some(s)).value == Plain(Lower(s))
    ensures Compact(Some(s)).None? ==> Plain(Lower(s)) == ""
  {
    PlainWords(Lower(Strip(s)));
    PlainTrimRight(TrimLeft(s));
    PlainTrimLeft(s);
  }

  /** Character by character, exactly the letters from a to z and the digits are kept. */
  lemma PlainExactly(s: string, c: char)
    ensures Plain("") == ""
    ensures Plain(s + [c]) == Plain(s) + if 'a' <= c <= 'z' || '0' <= c <= '9' then [c] else []
  {
    PlainJoin(s, [c]);
  }

  // ---------------------------------------------------------------- records

  /** The attributes a raw record may have: the fields, and two older names. */
  datatype Attribute = Of(field: Matching.Field) | Department | Location

  /** The first of an attribute and its alternative that has a value. */
  function First(a: Option<string>, b: Option<string>): Option<string> {
    if a.Some? then a else b
  }

  function RawValue(raw: Attribute -> Option<string>, f: Matching.Field): Option<string> {
    match f
    case DepartmentName => First(raw(Of(f)), raw(Department))
    case RoomName => First(raw(Of(f)), raw(Location))
    case _ => raw(Of(f))
  }

  function NormalizeRecord(raw: Attribute -> Option<string>): Matching.Record {
    f =>
      var value := if f in Matching.IDENTITY then Compact(RawValue(raw, f)) else Normalized(RawValue(raw, f));
      if value.Some? then value.value else ""
  }

  /** Two records agree on an identity field exactly when both values have letters or digits, and the same
      ones up to case, whatever separates them. */
  lemma IdentityAgreesExactly(left: Attribute -> Option<string>, right: Attribute -> Option<string>, f: Matching.Field)
    requires f in Matching.IDENTITY
    ensures Matching.Agree(NormalizeRecord(left), NormalizeRecord(right), f) <==>
            && left(Of(f)).Some? && right(Of(f)).Some?
            && Plain(Lower(left(Of(f)).value)) != ""
            && Plain(Lower(left(Of(f)).value)) == Plain(Lower(right(Of(f)).value))
  {
    if left(Of(f)).Some? {
      CompactIsPlain(left(Of(f)).value);
    }
    if right(Of(f)).Some? {
      CompactIsPlain(right(Of(f)).value);
    }
  }

  // ---------------------------------------------------------------- normal forms

  ghost predicate IsWord(w: string) {
    w != [] && forall i :: 0 <= i < |w| ==> !IsSpace(w[i])
  }

  ghost predicate AllWords(words: seq<string>) {
    forall k :: 0 <= k < |words| ==> IsWord(words[k])
  }

  lemma {:induction false} WordPrefix(s: string)
    ensures forall i :: 0 <= i < WordLength(s) ==> !IsSpace(s[i])
    ensures WordLength(s) < |s| ==> IsSpace(s[WordLength(s)])
  {
    if s != [] && !IsSpace(s[0]) {
      WordPrefix(s[1..]);
      assert forall i :: 1 <= i < |s| ==> s[i] == s[1..][i - 1];
    }
  }

  lemma {:induction false} WordsAreWords(s: string)
    ensures AllWords(Words(s))
    decreases |s|
  {
    if s == [] {
    } else if IsSpace(s[0]) {
      WordsAreWords(s[1..]);
    } else {
      WordPrefix(s);
      WordsAreWords(s[WordLength(s)..]);
    }
  }

  lemma {:induction false} LengthOfWord(w: string, rest: string)
    requires IsWord(w) && (rest == [] || IsSpace(rest[0]))
    ensures WordLength(w + rest) == |w|
    decreases |w|
  {
    if |w| == 1 {
      assert (w + rest)[1..] == rest;
    } else {
      assert (w + rest)[1..] == w[1..] + rest;
      LengthOfWord(w[1..], rest);
    }
  }

  /** Splitting a joined list of words gives the list back. */
  lemma {:induction false} SplitJoin(words: seq<string>)
    requires AllWords(words)
    ensures Words(Join(words)) == words
  {
    if words == [] {
    } else if |words| == 1 {
      LengthOfWord(words[0], []);
      assert words[0] + [] == words[0];
    } else {
      var rest := Join(words[1..]);
      SplitJoin(words[1..]);
      LengthOfWord(words[0], " " + rest);
      assert Join(words) == words[0] + (" " + rest);
      assert Join(words)[|words[0]|..] == " " + rest;
      assert (" " + rest)[1..] == rest;
    }
  }

  /** Joined words start and end with no white space, and stay as they are when trimmed. */
  lemma {:induction false} JoinEnds(words: seq<string>)
    requires AllWords(words) && words != []
    ensures var j := Join(words); j != [] && !IsSpace(j[0]) && !IsSpace(j[|j| - 1])
  {
    if |words| > 1 {
      JoinEnds(words[1..]);
    }
  }

  predicate IsLower(s: string) {
    forall i :: 0 <= i < |s| ==> LowerChar(s[i]) == s[i]
  }

  lemma {:induction false} WordsStayLower(s: string)
    requires IsLower(s)
    ensures IsLower(Join(Words(s)))
    decreases |s|
  {
    if s == [] {
    } else if IsSpace(s[0]) {
      WordsStayLower(s[1..]);
    } else {
      var n := WordLength(s);
      WordsStayLower(s[n..]);
      assert Words(s)[1..] == Words(s[n..]);
    }
  }

  lemma LowerStays(s: string)
    requires IsLower(s)
    ensures Lower(s) == s
  {
  }

  /** A normalised value is its own normal form. */
  lemma NormalizedIsNormal(value: Option<string>)
    requires Normalized(value).Some?
    ensures Normalized(Normalized(value)) == Normalized(value)
  {
    var source := Lower(Strip(value.value));
    var words := Words(source);
    var text := Join(words);
    WordsAreWords(source);
    JoinEnds(words);
    assert Strip(text) == text;
    WordsStayLower(source);
    LowerStays(text);
    SplitJoin(words);
  }

  // ---------------------------------------------------------------- agreement of text fields

  /** Where the value of a field comes from: the department and the room may have an older name. */
  function ValueOf(raw: Attribute -> Option<string>, f: Matching.Field): Option<string> {
    if f == Matching.DepartmentName && raw(Of(f)).None? then raw(Department)
    else if f == Matching.RoomName && raw(Of(f)).None? then raw(Location)
    else raw(Of(f))
  }

  lemma JoinsAlike(a: seq<string>, b: seq<string>)
    requires AllWords(a) && AllWords(b)
    ensures Join(a) == Join(b) <==> a == b
    ensures Join(a) == "" <==> a == []
  {
    SplitJoin(a);
    SplitJoin(b);
    if a != [] {
      JoinEnds(a);
    }
  }

  /** The text that stands for a value in a normalised record. */
  function TextOf(value: Option<string>): string {
    if Normalized(value).Some? then Normalized(value).value else ""
  }

  lemma TextsAgree(a: Option<string>, b: Option<string>)
    ensures TextOf(a) != "" && TextOf(a) == TextOf(b)
       <==> a.Some? && b.Some? && Words(Lower(Strip(a.value))) != []
            && Words(Lower(Strip(a.value))) == Words(Lower(Strip(b.value)))
  {
    if a.Some? && b.Some? {
      WordsAreWords(Lower(Strip(a.value)));
      WordsAreWords(Lower(Strip(b.value)));
      JoinsAlike(Words(Lower(Strip(a.value))), Words(Lower(Strip(b.value))));
    }
  }

  /** Two records agree on any other field exactly when both values have words, and the same ones in the same order
      up to case, whatever white space separates them. */
  lemma TextAgreesExactly(left: Attribute -> Option<string>, right: Attribute -> Option<string>, f: Matching.Field)
    requires f !in Matching.IDENTITY
    ensures var a, b := ValueOf(left, f), ValueOf(right, f);
            Matching.Agree(NormalizeRecord(left), NormalizeRecord(right), f)
            <==> a.Some? && b.Some? && Words(Lower(Strip(a.value))) != []
                 && Words(Lower(Strip(a.value))) == Words(Lower(Strip(b.value)))
  {
    var a, b := ValueOf(left, f), ValueOf(right, f);
    assert RawValue(left, f) == a && RawValue(right, f) == b;
    assert NormalizeRecord(left)(f) == TextOf(a) && NormalizeRecord(right)(f) == TextOf(b);
    TextsAgree(a, b);
  }
}

/** The backtracking matcher of apps/include/regex.h against the language a pattern denotes.
    A C string is the sequence of its characters before the NUL. */
module Regex {

  /** One element of a pattern; '.' as the character stands for any character. */
  datatype Item = One(c: char) | Star(c: char) | Plus(c: char) | Opt(c: char) | End

  /** The elements of a pattern, read from left to right. */
  function Items(regex: string): seq<Item> {
    if regex == "" then []
    else if regex == "$" then [End]
    else if |regex| > 1 && regex[1] == '*' then [Star(regex[0])] + Items(regex[2..])
    else if |regex| > 1 && regex[1] == '+' then [Plus(regex[0])] + Items(regex[2..])
    else if |regex| > 1 && regex[1] == '?' then [Opt(regex[0])] + Items(regex[2..])
    else [One(regex[0])] + Items(regex[1..])
  }

  // ---- the denoted language ----

  predicate Fits(c: char, x: char) { c == '.' || c == x }

  predicate AllFit(c: char, w: string) { forall i :: 0 <= i < |w| ==> Fits(c, w[i]) }

  predicate ItemLang(item: Item, w: string) {
    match item
    case One(c) => |w| == 1 && Fits(c, w[0])
    case Star(c) => AllFit(c, w)
    case Plus(c) => w != "" && AllFit(c, w)
    case Opt(c) => w == "" || (|w| == 1 && Fits(c, w[0]))
    case End => w == ""
  }

  /** Concatenation of the languages of the items. */
  ghost predicate Lang(items: seq<Item>, w: string) {
    if items == [] then w == ""
    else exists k :: 0 <= k <= |w| && ItemLang(items[0], w[..k]) && Lang(items[1..], w[k..])
  }

  predicate Anchored(items: seq<Item>) { items != [] && items[|items| - 1] == End }

  /** Some prefix of the text is in the language; with a final `$`, the whole text. */
  ghost predicate Accepts(items: seq<Item>, text: string) {
    exists n :: 0 <= n <= |text| && Lang(items, text[..n]) && (Anchored(items) ==> n == |text|)
  }

  /** What regex_match promises. */
  ghost predicate Matches(regex: string, text: string) {
    if regex != "" && regex[0] == '^' then Accepts(Items(regex[1..]), text)
    else exists s :: 0 <= s <= |text| && Accepts(Items(regex), text[s..])
  }

  // ---- splitting off the first item ----

  /** Only a final `$` is the end of text; any other `$` is a character. */
  lemma {:induction false} EndIsLast(regex: string, i: nat)
    requires i < |Items(regex)| && Items(regex)[i] == End
    ensures i == |Items(regex)| - 1 && regex[|regex| - 1] == '$'
    decreases |regex|
  {
    if regex != "$" {
      var n := if |regex| > 1 && regex[1] in "*+?" then 2 else 1;
      assert Items(regex) == [Items(regex)[0]] + Items(regex[n..]);
      EndIsLast(regex[n..], i - 1);
    }
  }

  lemma Split(item: Item, rest: seq<Item>, text: string, k: nat)
    requires k <= |text| && ItemLang(item, text[..k]) && Accepts(rest, text[k..]) && (rest == [] ==> item != End)
    ensures Accepts([item] + rest, text)
  {
    var n :| 0 <= n <= |text[k..]| && Lang(rest, text[k..][..n]) && (Anchored(rest) ==> n == |text[k..]|);
    var w, items := text[..k + n], [item] + rest;
    assert w[..k] == text[..k] && w[k..] == text[k..][..n] && items[1..] == rest;
    assert Lang(items, w);
  }

  lemma Join(item: Item, rest: seq<Item>, text: string) returns (k: nat)
    requires Accepts([item] + rest, text) && (rest == [] ==> item != End)
    ensures k <= |text| && ItemLang(item, text[..k]) && Accepts(rest, text[k..])
  {
    var items := [item] + rest;
    var n :| 0 <= n <= |text| && Lang(items, text[..n]) && (Anchored(items) ==> n == |text|);
    var w := text[..n];
    assert items[1..] == rest;
    k :| 0 <= k <= |w| && ItemLang(item, w[..k]) && Lang(rest, w[k..]);
    assert w[..k] == text[..k] && w[k..] == text[k..][..n - k];
  }

  lemma AcceptsOne(c: char, rest: seq<Item>, text: string)
    ensures Accepts([One(c)] + rest, text) <==> text != "" && Fits(c, text[0]) && Accepts(rest, text[1..])
  {
    if Accepts([One(c)] + rest, text) { var k := Join(One(c), rest, text); }
    if text != "" && Fits(c, text[0]) && Accepts(rest, text[1..]) { Split(One(c), rest, text, 1); }
  }

  lemma AcceptsOpt(c: char, rest: seq<Item>, text: string)
    ensures Accepts([Opt(c)] + rest, text) <==>
              Accepts(rest, text) || (text != "" && Fits(c, text[0]) && Accepts(rest, text[1..]))
  {
    assert text[0..] == text;
    if Accepts([Opt(c)] + rest, text) { var k := Join(Opt(c), rest, text); }
    if Accepts(rest, text) { Split(Opt(c), rest, text, 0); }
    if text != "" && Fits(c, text[0]) && Accepts(rest, text[1..]) { Split(Opt(c), rest, text, 1); }
  }

  lemma AcceptsStar(c: char, rest: seq<Item>, text: string)
    ensures Accepts([Star(c)] + rest, text) <==>
              exists k :: 0 <= k <= |text| && AllFit(c, text[..k]) && Accepts(rest, text[k..])
  {
    if Accepts([Star(c)] + rest, text) { var k := Join(Star(c), rest, text); }
    if k :| 0 <= k <= |text| && AllFit(c, text[..k]) && Accepts(rest, text[k..]) { Split(Star(c), rest, text, k); }
  }

  lemma AcceptsPlus(c: char, rest: seq<Item>, text: string)
    ensures Accepts([Plus(c)] + rest, text) <==>
              exists k :: 1 <= k <= |text| && AllFit(c, text[..k]) && Accepts(rest, text[k..])
  {
    if Accepts([Plus(c)] + rest, text) { var k := Join(Plus(c), rest, text); }
    if k :| 1 <= k <= |text| && AllFit(c, text[..k]) && Accepts(rest, text[k..]) { Split(Plus(c), rest, text, k); }
  }

  lemma AcceptsEmpty(text: string)
    ensures Accepts([], text)
  {
    assert Lang([], text[..0]);
  }

  lemma LangEnd(w: string)
    requires Lang([End], w)
    ensures w == ""
  {}

  lemma AcceptsEnd(text: string)
    ensures Accepts([End], text) <==> text == ""
  {
    if Accepts([End], text) {
      LangEnd(text[..|text|]);
    } else {
      assert ItemLang(End, ""[..0]) && Lang([End][1..], ""[0..]);
      assert Lang([End], text[..0]);
    }
  }

  /** What the operators mean, on the pattern as it is written: the rest of the text must be
      accepted by the rest of the pattern. */
  lemma Operators(c: char, rest: string, text: string)
    ensures Accepts(Items([c] + "*" + rest), text) <==>
              exists k :: 0 <= k <= |text| && AllFit(c, text[..k]) && Accepts(Items(rest), text[k..])
    ensures Accepts(Items([c] + "+" + rest), text) <==>
              exists k :: 1 <= k <= |text| && AllFit(c, text[..k]) && Accepts(Items(rest), text[k..])
    ensures Accepts(Items([c] + "?" + rest), text) <==>
              || Accepts(Items(rest), text)
              || (text != "" && (c == '.' || c == text[0]) && Accepts(Items(rest), text[1..]))
  {
    assert ([c] + "*" + rest)[2..] == ([c] + "+" + rest)[2..] == ([c] + "?" + rest)[2..] == rest;
    AcceptsStar(c, Items(rest), text);
    AcceptsPlus(c, Items(rest), text);
    AcceptsOpt(c, Items(rest), text);
  }

  /** Any other character stands for itself, '.' for any, and '$' at the end for the end of the
      text; the empty pattern accepts every text. */
  lemma Plain(c: char, rest: string, text: string)
    requires rest == "" || rest[0] !in "*+?"
    ensures Accepts(Items([c] + rest), text) <==>
              if c == '$' && rest == "" then text == ""
              else text != "" && (c == '.' || c == text[0]) && Accepts(Items(rest), text[1..])
    ensures Accepts(Items(""), text)
  {
    assert ([c] + rest)[1..] == rest;
    assert c == '$' && rest == "" ==> [c] + rest == "$";
    AcceptsOne(c, Items(rest), text);
    AcceptsEnd(text);
    AcceptsEmpty(text);
  }

  // ---- the matcher ----

  /** regex_match_star */
  method MatchStar(c: char, regex: string, text: string) returns (b: bool)
    ensures b <==> Accepts([Star(c)] + Items(regex), text)
    decreases |regex|, 1
  {
    AcceptsStar(c, Items(regex), text);
    var i := 0;
    while true
      invariant 0 <= i <= |text| && AllFit(c, text[..i])
      invariant forall k :: 0 <= k < i ==> !Accepts(Items(regex), text[k..])
      decreases |text| - i
    {
      b := MatchHere(regex, text[i..]);
      if b { return; }
      if i == |text| || !(text[i] == c || c == '.') {
        assert forall k :: i < k <= |text| ==> text[..k][i] == text[i];
        return false;
      }
      assert text[..i + 1] == text[..i] + [text[i]];
      i := i + 1;
    }
  }

  /** regex_match_plus */
  method MatchPlus(c: char, regex: string, text: string) returns (b: bool)
    ensures b <==> Accepts([Plus(c)] + Items(regex), text)
    decreases |regex|, 1
  {
    AcceptsPlus(c, Items(regex), text);
    var i := 0;
    while i < |text| && (text[i] == c || c == '.')
      invariant 0 <= i <= |text| && AllFit(c, text[..i])
      invariant forall k :: 1 <= k <= i ==> !Accepts(Items(regex), text[k..])
    {
      assert text[..i + 1] == text[..i] + [text[i]];
      i := i + 1;
      b := MatchHere(regex, text[i..]);
      if b { return; }
    }
    assert forall k :: i < k <= |text| ==> text[..k][i] == text[i];
    b := false;
  }

  /** regex_match_here */
  method MatchHere(regex: string, text: string) returns (b: bool)
    ensures b <==> Accepts(Items(regex), text)
    decreases |regex|, 0
  {
    if regex == "" {
      AcceptsEmpty(text);
      return true;
    }
    if regex[0] == '$' && |regex| == 1 {
      AcceptsEnd(text);
      return text == "";
    }
    if |regex| > 1 && regex[1] == '*' {
      b := MatchStar(regex[0], regex[2..], text);
      return;
    }
    if |regex| > 1 && regex[1] == '+' {
      b := MatchPlus(regex[0], regex[2..], text);
      return;
    }
    if |regex| > 1 && regex[1] == '?' {
      AcceptsOpt(regex[0], Items(regex[2..]), text);
      b := MatchHere(regex[2..], text);
      if b { return; }
      if text != "" && (regex[0] == '.' || regex[0] == text[0]) {
        b := MatchHere(regex[2..], text[1..]);
      }
      return;
    }
    AcceptsOne(regex[0], Items(regex[1..]), text);
    if text != "" && (regex[0] == '.' || regex[0] == text[0]) {
      b := MatchHere(regex[1..], text[1..]);
      return;
    }
    b := false;
  }

  /** regex_match accepts exactly the texts that the pattern denotes. */
  method Match(regex: string, text: string) returns (b: bool)
    ensures b <==> Matches(regex, text)
  {
    if regex != "" && regex[0] == '^' {
      b := MatchHere(regex[1..], text);
      return;
    }
    var s := 0;
    while true
      invariant 0 <= s <= |text|
      invariant forall k :: 0 <= k < s ==> !Accepts(Items(regex), text[k..])
      decreases |text| - s
    {
      b := MatchHere(regex, text[s..]);
      if b { return; }
      if s == |text| { return false; }
      s := s + 1;
    }
  }
}

/** The regular expression matcher of grep.c (chapter 9 of The Practice of Programming) against the language that a
    pattern denotes. */
module Grep {

  /** A pattern is a sequence of characters, each once or any number of times; '.' stands for every character. */
  datatype Item = One(c: char) | Star(c: char)

  function Items(re: string): seq<Item> {
    if re == "" then []
    else if |re| > 1 && re[1] == '*' then [Star(re[0])] + Items(re[2..])
    else if re == "$" then []
    else [One(re[0])] + Items(re[1..])
  }

  /** The pattern ends in a '$' that means the end of the text. */
  predicate Anchored(re: string) {
    if re == "" then false
    else if |re| > 1 && re[1] == '*' then Anchored(re[2..])
    else if re == "$" then true
    else Anchored(re[1..])
  }

  predicate Fits(c: char, x: char) {
    c == '.' || c == x
  }

  predicate AllFit(c: char, s: string) {
    forall i :: 0 <= i < |s| ==> Fits(c, s[i])
  }

  /** The language of a sequence of items. */
  ghost predicate In(items: seq<Item>, s: string)
    decreases |items|
  {
    if items == [] then s == ""
    else match items[0]
         case One(c) => s != "" && Fits(c, s[0]) && In(items[1..], s[1..])
         case Star(c) => exists k :: 0 <= k <= |s| && AllFit(c, s[..k]) && In(items[1..], s[k..])
  }

  /** Some prefix of the text is in the language; all of it, if the pattern is anchored at the end. */
  ghost predicate Here(re: string, text: string) {
    exists n :: 0 <= n <= |text| && PrefixIn(re, text, n)
  }

  ghost predicate PrefixIn(re: string, text: string, n: nat)
    requires n <= |text|
  {
    In(Items(re), text[..n]) && (Anchored(re) ==> n == |text|)
  }

  /** Some substring is: a prefix after '^', a suffix before a final '$'. */
  ghost predicate Somewhere(re: string, text: string) {
    if re != "" && re[0] == '^' then Here(re[1..], text)
    else exists i :: 0 <= i <= |text| && Here(re, text[i..])
  }

  ghost predicate StarSplit(c: char, re: string, text: string, k: nat)
    requires k <= |text|
  {
    AllFit(c, text[..k]) && Here(re, text[k..])
  }

  lemma HereEmpty(text: string)
    ensures Here("", text)
  {
    assert PrefixIn("", text, 0);
  }

  lemma HereEnd(text: string)
    ensures Here("$", text) <==> text == ""
  {
    if text == "" {
      assert PrefixIn("$", text, 0);
    }
  }

  lemma HereOne(re: string, text: string)
    requires re != "" && re != "$" && !(|re| > 1 && re[1] == '*')
    ensures Here(re, text) <==> text != "" && Fits(re[0], text[0]) && Here(re[1..], text[1..])
  {
    if Here(re, text) {
      var n :| 0 <= n <= |text| && PrefixIn(re, text, n);
      assert n > 0 && text[..n][1..] == text[1..][..n - 1];
      assert PrefixIn(re[1..], text[1..], n - 1);
    }
    if text != "" && Fits(re[0], text[0]) && Here(re[1..], text[1..]) {
      var n :| 0 <= n <= |text[1..]| && PrefixIn(re[1..], text[1..], n);
      assert text[..n + 1][1..] == text[1..][..n];
      assert PrefixIn(re, text, n + 1);
    }
  }

  lemma HereStar(re: string, text: string)
    requires |re| > 1 && re[1] == '*'
    ensures Here(re, text) <==> exists k :: 0 <= k <= |text| && StarSplit(re[0], re[2..], text, k)
  {
    if Here(re, text) {
      var n :| 0 <= n <= |text| && PrefixIn(re, text, n);
      var s := text[..n];
      var k :| 0 <= k <= |s| && AllFit(re[0], s[..k]) && In(Items(re[2..]), s[k..]);
      assert s[..k] == text[..k] && s[k..] == text[k..][..n - k];
      assert PrefixIn(re[2..], text[k..], n - k);
      assert StarSplit(re[0], re[2..], text, k);
    }
    if exists k :: 0 <= k <= |text| && StarSplit(re[0], re[2..], text, k) {
      var k :| 0 <= k <= |text| && StarSplit(re[0], re[2..], text, k);
      var m :| 0 <= m <= |text[k..]| && PrefixIn(re[2..], text[k..], m);
      var s := text[..k + m];
      assert s[..k] == text[..k] && s[k..] == text[k..][..m];
      assert PrefixIn(re, text, k + m);
    }
  }

  // ---- what patterns mean, without their items ----

  /** No character of the pattern is special but for dots. */
  predicate Plain(re: string) {
    forall i :: 0 <= i < |re| ==> re[i] != '*' && re[i] != '$' && re[i] != '^'
  }

  /** The text has the pattern's characters at position i; a dot is any character. */
  predicate Spelled(re: string, text: string, i: nat) {
    i + |re| <= |text| && forall j :: 0 <= j < |re| ==> re[j] == '.' || re[j] == text[i + j]
  }

  lemma SpelledStep(re: string, text: string)
    requires re != ""
    ensures Spelled(re, text, 0) <==> text != "" && (re[0] == '.' || re[0] == text[0]) && Spelled(re[1..], text[1..], 0)
  {
    if text != "" && (re[0] == '.' || re[0] == text[0]) && Spelled(re[1..], text[1..], 0) {
      forall j | 0 <= j < |re| ensures re[j] == '.' || re[j] == text[j] {
        if j > 0 {
          assert re[1..][j - 1] == re[j] && text[1..][j - 1] == text[j];
        }
      }
    }
  }

  lemma {:induction false} PlainHere(re: string, text: string)
    requires Plain(re)
    ensures Here(re, text) <==> Spelled(re, text, 0)
    ensures Here(re + "$", text) <==> |re| == |text| && Spelled(re, text, 0)
    decreases |re|
  {
    hide Here;
    if re == "" {
      HereEmpty(text);
      HereEnd(text);
      assert re + "$" == "$";
    } else {
      var end := re + "$";
      assert re[0] != '$' && end[0] == re[0] && (|re| > 1 ==> re[1] != '*' && end[1] == re[1]);
      HereOne(re, text);
      HereOne(end, text);
      SpelledStep(re, text);
      assert end[1..] == re[1..] + "$";
      if text != "" {
        PlainHere(re[1..], text[1..]);
      }
    }
  }

  /** A pattern without stars matches where it is spelled: anywhere, at the start after '^', at the end before '$'. */
  lemma PlainMatch(re: string, text: string)
    requires Plain(re)
    ensures Somewhere(re, text) <==> exists i: nat :: Spelled(re, text, i)
    ensures Somewhere("^" + re, text) <==> Spelled(re, text, 0)
    ensures Somewhere(re + "$", text) <==> |re| <= |text| && Spelled(re, text, |text| - |re|)
    ensures Somewhere("^" + re + "$", text) <==> |re| == |text| && Spelled(re, text, 0)
  {
    hide Here;
    forall i: nat | i <= |text|
      ensures Here(re, text[i..]) <==> Spelled(re, text, i)
      ensures Here(re + "$", text[i..]) <==> i == |text| - |re| && Spelled(re, text, i)
    {
      PlainHere(re, text[i..]);
      SpelledFrom(re, text, i);
    }
    assert text[0..] == text;
    assert ("^" + re)[1..] == re && ("^" + re + "$")[1..] == re + "$";
    if exists i: nat :: Spelled(re, text, i) {
      var i: nat :| Spelled(re, text, i);
      assert Here(re, text[i..]);
    }
    if |re| <= |text| && Spelled(re, text, |text| - |re|) {
      assert Here(re + "$", text[|text| - |re|..]);
    }
  }

  lemma SpelledFrom(re: string, text: string, i: nat)
    requires i <= |text|
    ensures Spelled(re, text[i..], 0) <==> Spelled(re, text, i)
  {
    forall j | 0 <= j < |text| - i ensures text[i..][j] == text[i + j] {
    }
  }

  /** A run of c, or of anything if c is a dot, up to position k, and there the pattern. */
  predicate RunThen(c: char, re: string, text: string, k: nat) {
    Spelled(re, text, k) && forall j :: 0 <= j < k ==> c == '.' || text[j] == c
  }

  /** c* is any run of c, and .* any run at all, before what follows. */
  lemma StarMatch(c: char, re: string, text: string)
    requires Plain(re)
    ensures Somewhere("^" + [c, '*'] + re, text) <==> exists k: nat :: RunThen(c, re, text, k)
  {
    hide Here;
    var star := [c, '*'] + re;
    assert ("^" + [c, '*'] + re)[1..] == star && star[2..] == re;
    HereStar(star, text);
    forall k: nat | k <= |text| ensures StarSplit(c, re, text, k) <==> RunThen(c, re, text, k) {
      PlainHere(re, text[k..]);
      SpelledFrom(re, text, k);
      assert forall j :: 0 <= j < k ==> text[..k][j] == text[j];
    }
    if exists k: nat :: RunThen(c, re, text, k) {
      var k: nat :| RunThen(c, re, text, k);
      assert StarSplit(c, re, text, k);
    }
  }

  /** matchhere, which terminates because the pattern gets shorter. */
  method MatchHere(re: string, text: string) returns (r: bool)
    ensures r <==> Here(re, text)
    decreases |re|, 0
  {
    if re == "" {
      HereEmpty(text);
      return true;
    }
    if |re| > 1 && re[1] == '*' {
      HereStar(re, text);
      r := MatchStar(re[0], re[2..], text);
      return;
    }
    if re[0] == '$' && |re| == 1 {
      assert re == "$";
      HereEnd(text);
      return text == "";
    }
    HereOne(re, text);
    if text != "" && (re[0] == '.' || re[0] == text[0]) {
      r := MatchHere(re[1..], text[1..]);
      return;
    }
    r := false;
  }

  /** matchstar: the shortest run of c first. */
  method MatchStar(c: char, re: string, text: string) returns (r: bool)
    ensures r <==> exists k :: 0 <= k <= |text| && StarSplit(c, re, text, k)
    decreases |re|, 1
  {
    var k := 0;
    while true
      invariant 0 <= k <= |text| && AllFit(c, text[..k])
      invariant forall j :: 0 <= j < k ==> !StarSplit(c, re, text, j)
      decreases |text| - k
    {
      r := MatchHere(re, text[k..]);
      if r {
        assert StarSplit(c, re, text, k);
        return;
      }
      if k == |text| || !(text[k] == c || c == '.') {
        break;
      }
      k := k + 1;
    }
    forall j | 0 <= j <= |text| ensures !StarSplit(c, re, text, j) {
      if j > k {
        assert !Fits(c, text[..j][k]);
      }
    }
    r := false;
  }

  /** match: exactly the texts with a substring in the pattern's language. */
  method Match(re: string, text: string) returns (r: bool)
    ensures r <==> Somewhere(re, text)
  {
    if re != "" && re[0] == '^' {
      r := MatchHere(re[1..], text);
      return;
    }
    var i := 0;
    while true
      invariant 0 <= i <= |text| && forall j :: 0 <= j < i ==> !Here(re, text[j..])
      decreases |text| - i
    {
      r := MatchHere(re, text[i..]);
      if r || i == |text| {
        return;
      }
      i := i + 1;
    }
  }
}
